/** Hint vectors of ML-DSA-65 signatures: sparse bits packed as positions and running counts, section 7.1 of FIPS 204. */
module MlDsaHints {
  import opened Bits
  import opened MlDsaRound
  import opened Words

  const OMEGA := 55
  const DK := 6

  type Row = seq<int32>

  predicate IsHint(h: seq<Row>) {
    |h| == DK && forall i :: 0 <= i < DK ==> |h[i]| == 256
  }

  /** Every entry is a bit. */
  predicate IsBits(h: seq<Row>)
    requires IsHint(h)
  {
    forall i, j :: 0 <= i < DK && 0 <= j < 256 ==> h[i][j] == 0 || h[i][j] == 1
  }

  // ----- the encoding -----

  /** The positions below n at which a row is not zero, in order. */
  function Positions(row: Row, n: nat): (s: seq<Byte>)
    requires n <= |row| <= 256
    ensures |s| <= n
  {
    if n == 0 then [] else Positions(row, n - 1) + (if row[n - 1] != 0 then [n - 1] else [])
  }

  /** The positions of the first i rows, one row after the other. */
  function AllPositions(h: seq<Row>, i: nat): (s: seq<Byte>)
    requires IsHint(h) && i <= DK
  {
    if i == 0 then [] else AllPositions(h, i - 1) + Positions(h[i - 1], 256)
  }

  function Count(h: seq<Row>, i: nat): (n: nat)
    requires IsHint(h) && i <= DK
  {
    |AllPositions(h, i)|
  }

  /** The positions, zeros up to 55, and after which entry each row ends. */
  function HintBytes(h: seq<Row>): (b: seq<Byte>)
    requires IsHint(h) && Count(h, DK) <= OMEGA
    ensures |b| == OMEGA + DK
  {
    forall i | 0 <= i <= DK ensures Count(h, i) <= OMEGA { CountGrows(h, i, DK); }
    AllPositions(h, DK) + seq(OMEGA - Count(h, DK), _ => 0) + seq(DK, (i: nat) requires i < DK => Count(h, i + 1))
  }

  lemma {:induction false} CountGrows(h: seq<Row>, i: nat, k: nat)
    requires IsHint(h) && i <= k <= DK
    ensures Count(h, i) <= Count(h, k) && AllPositions(h, k)[..Count(h, i)] == AllPositions(h, i)
    decreases k
  {
    hide Positions;
    if i < k {
      CountGrows(h, i, k - 1);
      assert AllPositions(h, k)[..Count(h, k - 1)] == AllPositions(h, k - 1);
      assert AllPositions(h, k)[..Count(h, i)] == AllPositions(h, k)[..Count(h, k - 1)][..Count(h, i)];
    }
  }

  // ----- the decoding -----

  function Start(hs: seq<Byte>, i: nat): (k: nat)
    requires |hs| == OMEGA + DK && i <= DK
  {
    if i == 0 then 0 else hs[OMEGA + i - 1]
  }

  /** The entries of row i. */
  predicate RowAccepted(hs: seq<Byte>, i: nat)
    requires |hs| == OMEGA + DK && i < DK
  {
    && Start(hs, i) <= Start(hs, i + 1) <= OMEGA
    && forall j :: Start(hs, i) < j < Start(hs, i + 1) ==> hs[j - 1] < hs[j]
  }

  /** Rows end in order, positions increase within a row, and unused entries are zero. */
  predicate Accepted(hs: seq<Byte>)
    requires |hs| == OMEGA + DK
  {
    && (forall i :: 0 <= i < DK ==> RowAccepted(hs, i))
    && forall j :: Start(hs, DK) <= j < OMEGA ==> hs[j] == 0
  }

  function Segment(hs: seq<Byte>, i: nat): (s: seq<Byte>)
    requires |hs| == OMEGA + DK && i < DK && RowAccepted(hs, i)
  {
    hs[Start(hs, i)..Start(hs, i + 1)]
  }

  function Indicator(s: seq<Byte>): (row: Row)
    ensures |row| == 256
  {
    seq(256, (p: nat) requires p < 256 => if p in s then 1 else 0)
  }

  function HintsOf(hs: seq<Byte>): (h: seq<Row>)
    requires |hs| == OMEGA + DK && Accepted(hs)
    ensures IsHint(h)
  {
    seq(DK, (i: nat) requires i < DK => Indicator(Segment(hs, i)))
  }

  // ----- decoding undoes encoding -----

  predicate Increasing(s: seq<Byte>) {
    forall i, j :: 0 <= i < j < |s| ==> s[i] < s[j]
  }

  lemma {:induction false} PositionsAre(row: Row, n: nat)
    requires n <= |row| <= 256
    ensures Increasing(Positions(row, n)) && forall p: Byte :: p in Positions(row, n) <==> p < n && row[p] != 0
    ensures forall k :: 0 <= k < |Positions(row, n)| ==> Positions(row, n)[k] < n
  {
    if n > 0 {
      PositionsAre(row, n - 1);
    }
  }

  lemma IndicatorOfPositions(row: Row)
    requires |row| == 256 && forall j :: 0 <= j < 256 ==> row[j] == 0 || row[j] == 1
    ensures Indicator(Positions(row, 256)) == row
  {
    PositionsAre(row, 256);
  }

  lemma EncodedStart(h: seq<Row>, i: nat)
    requires IsHint(h) && Count(h, DK) <= OMEGA && i <= DK
    ensures Start(HintBytes(h), i) == Count(h, i) <= OMEGA
  {
    CountGrows(h, i, DK);
  }

  lemma EncodedSegment(h: seq<Row>, i: nat)
    requires IsHint(h) && Count(h, DK) <= OMEGA && i < DK
    ensures Count(h, i) <= Count(h, i + 1) <= OMEGA
    ensures HintBytes(h)[Count(h, i)..Count(h, i + 1)] == Positions(h[i], 256)
    ensures RowAccepted(HintBytes(h), i) && Segment(HintBytes(h), i) == Positions(h[i], 256)
  {
    hide Positions;
    var b, all := HintBytes(h), AllPositions(h, DK);
    CountGrows(h, i, i + 1);
    CountGrows(h, i + 1, DK);
    EncodedStart(h, i);
    EncodedStart(h, i + 1);
    var s := Positions(h[i], 256);
    assert AllPositions(h, i + 1) == AllPositions(h, i) + s;
    assert b[..Count(h, i + 1)] == all[..Count(h, i + 1)];
    assert b[Count(h, i)..Count(h, i + 1)] == b[..Count(h, i + 1)][Count(h, i)..];
    assert b[Count(h, i)..Count(h, i + 1)] == s;
    PositionsAre(h[i], 256);
    forall j | Start(b, i) < j < Start(b, i + 1) ensures b[j - 1] < b[j] {
      assert b[j - 1] == s[j - 1 - Count(h, i)] && b[j] == s[j - Count(h, i)];
    }
  }

  /** A packed hint is accepted, and unpacks to the hint. */
  lemma UnpackPackedHint(h: seq<Row>)
    requires IsHint(h) && IsBits(h) && Count(h, DK) <= OMEGA
    ensures Accepted(HintBytes(h)) && HintsOf(HintBytes(h)) == h
  {
    hide Positions, Indicator;
    var b := HintBytes(h);
    forall i | 0 <= i < DK ensures RowAccepted(b, i) && Segment(b, i) == Positions(h[i], 256) {
      EncodedSegment(h, i);
    }
    EncodedStart(h, DK);
    assert Accepted(b);
    forall i | 0 <= i < DK ensures HintsOf(b)[i] == h[i] {
      IndicatorOfPositions(h[i]);
    }
  }

  // ----- encoding undoes decoding -----

  /** How many entries of an increasing sequence are below n. */
  lemma {:induction false} PositionsOfIndicator(s: seq<Byte>, n: nat, k: nat)
    requires Increasing(s) && n <= 256 && k <= |s|
    requires (forall i :: 0 <= i < k ==> s[i] < n) && forall i :: k <= i < |s| ==> s[i] >= n
    ensures Positions(Indicator(s), n) == s[..k]
    decreases n
  {
    if n == 0 {
    } else if k > 0 && s[k - 1] == n - 1 {
      PositionsOfIndicator(s, n - 1, k - 1);
      assert s[..k] == s[..k - 1] + [s[k - 1]];
    } else {
      assert n - 1 !in s;
      forall i | 0 <= i < k ensures s[i] < n - 1 {
        assert s[i] in s;
      }
      PositionsOfIndicator(s, n - 1, k);
    }
  }

  lemma SegmentIncreases(hs: seq<Byte>, i: nat)
    requires |hs| == OMEGA + DK && i < DK && RowAccepted(hs, i)
    ensures Increasing(Segment(hs, i))
  {
    var s := Segment(hs, i);
    forall k, m | 0 <= k < m < |s| ensures s[k] < s[m] {
      Chain(s, k, m, hs, Start(hs, i));
    }
  }

  lemma {:induction false} Chain(s: seq<Byte>, k: nat, m: nat, hs: seq<Byte>, at: nat)
    requires k < m < |s| && at + |s| <= |hs| && s == hs[at..at + |s|]
    requires forall j :: at < j < at + |s| ==> hs[j - 1] < hs[j]
    ensures s[k] < s[m]
    decreases m
  {
    assert hs[at + m - 1] < hs[at + m];
    assert s[m] == hs[at + m] && s[m - 1] == hs[at + m - 1];
    if k < m - 1 {
      Chain(s, k, m - 1, hs, at);
    }
  }

  lemma {:induction false} DecodedPositions(hs: seq<Byte>, i: nat)
    requires |hs| == OMEGA + DK && Accepted(hs) && i <= DK
    ensures Start(hs, i) <= OMEGA && AllPositions(HintsOf(hs), i) == hs[..Start(hs, i)]
  {
    hide Positions, Indicator, RowAccepted, Segment;
    if i > 0 {
      DecodedPositions(hs, i - 1);
      var s := Segment(hs, i - 1);
      DecodedRow(hs, i - 1);
      assert HintsOf(hs)[i - 1] == Indicator(s);
    }
  }

  lemma DecodedRow(hs: seq<Byte>, i: nat)
    requires |hs| == OMEGA + DK && i < DK && RowAccepted(hs, i)
    ensures Start(hs, i + 1) <= OMEGA && Positions(Indicator(Segment(hs, i)), 256) == Segment(hs, i)
    ensures hs[..Start(hs, i + 1)] == hs[..Start(hs, i)] + Segment(hs, i)
  {
    hide Positions, Indicator, Increasing;
    var s := Segment(hs, i);
    SegmentIncreases(hs, i);
    PositionsOfIndicator(s, 256, |s|);
    assert s[..|s|] == s;
  }

  /** Packing an accepted encoding again gives the same bytes: a hint has one encoding. */
  lemma PackUnpackedHint(hs: seq<Byte>)
    requires |hs| == OMEGA + DK && Accepted(hs)
    ensures IsBits(HintsOf(hs)) && Count(HintsOf(hs), DK) <= OMEGA && HintBytes(HintsOf(hs)) == hs
  {
    hide Positions, AllPositions, Indicator;
    var h := HintsOf(hs);
    assert IsBits(h) by { IndicatorsAreBits(hs); }
    forall i | 0 <= i <= DK ensures Count(h, i) == Start(hs, i) {
      DecodedPositions(hs, i);
    }
    DecodedPositions(hs, DK);
    var b := HintBytes(h);
    forall p | 0 <= p < OMEGA + DK ensures b[p] == hs[p] {
      if p >= OMEGA {
        assert b[p] == Count(h, p - OMEGA + 1);
      }
    }
  }

  lemma IndicatorsAreBits(hs: seq<Byte>)
    requires |hs| == OMEGA + DK && Accepted(hs)
    ensures IsBits(HintsOf(hs))
  {
  }

  // ----- the program -----

  /** One row: every position is offered, and written over until it is kept. */
  method PackRow(hs: array<Byte>, row: Row, k0: nat) returns (k: nat)
    requires hs.Length == OMEGA + DK && |row| == 256 && k0 + |Positions(row, 256)| <= OMEGA
    modifies hs
    ensures k == k0 + |Positions(row, 256)|
    ensures forall p :: 0 <= p < k0 || k <= p < OMEGA + DK ==> hs[p] == old(hs[p])
    ensures hs[k0..k] == Positions(row, 256)
  {
    hide NonZero, ChosenByte;
    k := k0;
    var j := 0;
    while j < 256
      invariant 0 <= j <= 256 && k == k0 + |Positions(row, j)| <= OMEGA
      invariant forall p :: 0 <= p < k0 || k <= p < OMEGA + DK ==> hs[p] == old(hs[p])
      invariant forall p :: k0 <= p < k ==> hs[p] == Positions(row, j)[p - k0]
    {
      PositionsGrow(row, j + 1, 256);
      var bit := NonZero(row[j]);
      hs[k] := ChosenByte(hs[k], j, bit * 0xff);
      k := k + bit;
      j := j + 1;
    }
    assert hs[k0..k] == Positions(row, 256);
  }

  lemma {:induction false} PositionsGrow(row: Row, m: nat, n: nat)
    requires m <= n <= |row| <= 256
    ensures |Positions(row, m)| <= |Positions(row, n)|
    decreases n
  {
    if m < n {
      PositionsGrow(row, m, n - 1);
    }
  }

  lemma NoRows(h: seq<Row>)
    requires IsHint(h)
    ensures AllPositions(h, 0) == []
  {
  }

  lemma NextRow(h: seq<Row>, i: nat)
    requires IsHint(h) && i < DK
    ensures AllPositions(h, i + 1) == AllPositions(h, i) + Positions(h[i], 256)
  {
  }

  method PackHint(hs: array<Byte>, h: seq<Row>)
    requires hs.Length == OMEGA + DK && IsHint(h) && Count(h, DK) <= OMEGA
    modifies hs
    ensures hs[..] == HintBytes(h)
  {
    hide Positions, AllPositions;
    NoRows(h);
    var p := 0;
    while p < OMEGA + DK
      invariant 0 <= p <= OMEGA + DK && forall q :: 0 <= q < p ==> hs[q] == 0
    {
      hs[p] := 0;
      p := p + 1;
    }
    var i, k := 0, 0;
    while i < DK
      invariant 0 <= i <= DK && k == Count(h, i) <= OMEGA
      invariant hs[..k] == AllPositions(h, i)
      invariant forall q :: k <= q < OMEGA ==> hs[q] == 0
      invariant forall q :: OMEGA <= q < OMEGA + i ==> hs[q] == Count(h, q - OMEGA + 1)
    {
      CountGrows(h, i + 1, DK);
      NextRow(h, i);
      ghost var done, k0 := hs[..k], k;
      k := PackRow(hs, h[i], k);
      assert hs[..k0] == done;
      assert hs[..k] == hs[..k0] + hs[k0..k];
      hs[OMEGA + i] := k;
      assert hs[..k] == AllPositions(h, i + 1);
      i := i + 1;
    }
    PackedAll(hs[..], h);
  }

  lemma PackedAll(hs: seq<Byte>, h: seq<Row>)
    requires |hs| == OMEGA + DK && IsHint(h) && Count(h, DK) <= OMEGA
    requires hs[..Count(h, DK)] == AllPositions(h, DK) && (forall q :: Count(h, DK) <= q < OMEGA ==> hs[q] == 0)
    requires forall q :: OMEGA <= q < OMEGA + DK ==> hs[q] == Count(h, q - OMEGA + 1)
    ensures hs == HintBytes(h)
  {
    hide AllPositions;
    var b := HintBytes(h);
    forall p | 0 <= p < OMEGA + DK ensures b[p] == hs[p] {
      if p < Count(h, DK) {
        assert hs[..Count(h, DK)][p] == AllPositions(h, DK)[p];
      }
    }
  }

  /** One row back into its array, or refusal. */
  method UnpackRow(row: array<int32>, hs: seq<Byte>, i: nat, k: nat) returns (ok: bool)
    requires row.Length == 256 && |hs| == OMEGA + DK && i < DK && k == Start(hs, i) <= OMEGA
    modifies row
    ensures ok <==> RowAccepted(hs, i)
    ensures ok ==> row[..] == Indicator(Segment(hs, i))
  {
    var j := 0;
    while j < 256
      invariant 0 <= j <= 256 && forall p :: 0 <= p < j ==> row[p] == 0
    {
      row[j] := 0;
      j := j + 1;
    }
    if hs[OMEGA + i] < k || hs[OMEGA + i] > OMEGA {
      return false;
    }
    j := k;
    while j < hs[OMEGA + i]
      invariant k <= j <= hs[OMEGA + i]
      invariant forall q :: k < q < j ==> hs[q - 1] < hs[q]
      invariant forall p: Byte :: row[p] == if p in hs[k..j] then 1 else 0
    {
      if j > k && hs[j] <= hs[j - 1] {
        return false;
      }
      assert hs[k..j + 1] == hs[k..j] + [hs[j]];
      row[hs[j]] := 1;
      j := j + 1;
    }
    ok := true;
    assert row[..] == Indicator(Segment(hs, i));
  }

  method UnpackHint(hs: seq<Byte>) returns (ok: bool, h: seq<Row>)
    requires |hs| == OMEGA + DK
    ensures ok <==> Accepted(hs)
    ensures ok ==> h == HintsOf(hs)
  {
    hide RowAccepted, Indicator;
    h := [];
    ok := false;
    var i, k := 0, 0;
    while i < DK
      invariant 0 <= i <= DK && k == Start(hs, i) <= OMEGA && |h| == i
      invariant forall q :: 0 <= q < i ==> RowAccepted(hs, q) && h[q] == Indicator(Segment(hs, q))
    {
      var row := new int32[256];
      var fine := UnpackRow(row, hs, i, k);
      if !fine {
        return;
      }
      AcceptedBound(hs, i);
      h := h + [row[..]];
      k := hs[OMEGA + i];
      i := i + 1;
    }
    var j := k;
    while j < OMEGA
      invariant k <= j <= OMEGA && forall q :: k <= q < j ==> hs[q] == 0
    {
      if hs[j] != 0 {
        return;
      }
      j := j + 1;
    }
    ok := true;
  }

  lemma AcceptedBound(hs: seq<Byte>, i: nat)
    requires |hs| == OMEGA + DK && i < DK && RowAccepted(hs, i)
    ensures Start(hs, i + 1) <= OMEGA
  {
  }
}
