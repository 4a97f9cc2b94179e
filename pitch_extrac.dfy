/**
 * Batch feature extraction (features/PitchExtrac.py): a trimmed waveform is cut
 * into whole one-second segments, each segment is summarised by the spectral
 * library into seven aggregate arrays, the aggregates are gathered into a
 * feature dictionary, and the dictionary is flattened into one row of a table
 * whose 38-column header is fixed.
 *
 * The spectral library is a parameter `analyse`: it maps a segment and the
 * sample rate to the per-segment means. Nothing about its values is assumed;
 * where the code needs the array lengths that the library guarantees, a
 * precondition says so.
 */
module PitchExtrac {
  import opened Wrappers
  import opened PyStrings

  const ChromaBins: nat := 12
  const MfccCount: nat := 20
  const ColumnCount: nat := 38

  /** The per-segment means `.mean(axis=1)` of the seven librosa features. */
  datatype Analysis = Analysis(
    chroma: seq<real>,
    rms: seq<real>,
    centroid: seq<real>,
    bandwidth: seq<real>,
    rolloff: seq<real>,
    zcr: seq<real>,
    mfcc: seq<real>)

  /** The shapes librosa returns: 12 chroma bins, one value for each of the
      five scalar features, `n_mfcc = 20` cepstral coefficients. */
  predicate WellShaped(a: Analysis) {
    && |a.chroma| == ChromaBins
    && |a.rms| == 1 && |a.centroid| == 1 && |a.bandwidth| == 1
    && |a.rolloff| == 1 && |a.zcr| == 1
    && |a.mfcc| == MfccCount
  }

  /** At least the 20 coefficients that the MFCC loop reads exist. */
  ghost predicate YieldsMfccs<T(!new)>(analyse: (seq<T>, int) -> Analysis, sr: int) {
    forall s: seq<T> :: MfccCount <= |analyse(s, sr).mfcc|
  }

  /** Every segment is summarised with librosa's fixed shapes. */
  ghost predicate Shaped<T(!new)>(analyse: (seq<T>, int) -> Analysis, sr: int) {
    forall s: seq<T> :: WellShaped(analyse(s, sr))
  }

  lemma ShapedYieldsMfccs<T(!new)>(analyse: (seq<T>, int) -> Analysis, sr: int)
    requires Shaped(analyse, sr)
    ensures YieldsMfccs(analyse, sr)
  {
    forall s: seq<T> ensures MfccCount <= |analyse(s, sr).mfcc| {
      assert WellShaped(analyse(s, sr));
    }
  }

  // ---------------------------------------------------------------------
  // Segmentation
  // ---------------------------------------------------------------------

  /** Whole seconds in `n` samples at rate `sr`: `len(y) // sr`. */
  function TotalSeconds(n: nat, sr: int): (t: nat)
    requires sr > 0
    ensures t * sr <= n < t * sr + sr
  {
    n / sr
  }

  /** Fewer than `sr` samples hold no whole second. */
  lemma NoWholeSecond(n: nat, sr: int)
    requires sr > 0 && n < sr
    ensures TotalSeconds(n, sr) == 0
  {
    var t := TotalSeconds(n, sr);
    if t > 0 {
      MulMonotone(1, t, sr);
    }
  }

  /** Segment `k` lies inside the waveform. */
  lemma SegmentBounds(n: nat, sr: int, k: nat)
    requires sr > 0 && k < TotalSeconds(n, sr)
    ensures k * sr + sr <= TotalSeconds(n, sr) * sr <= n
  {
    var t := TotalSeconds(n, sr);
    MulMonotone(k + 1, t, sr);
  }

  /** The samples of second `k`: `y[k*sr : k*sr + sr]`. */
  function Segment<T>(y: seq<T>, sr: int, k: nat): (s: seq<T>)
    requires sr > 0 && k < TotalSeconds(|y|, sr)
    ensures |s| == sr
    ensures forall i {:trigger s[i]} :: 0 <= i < sr ==> k * sr + i < |y| && s[i] == y[k * sr + i]
  {
    SegmentBounds(|y|, sr, k);
    y[k * sr .. k * sr + sr]
  }

  /** All whole-second segments in order; the partial last second is not one. */
  function Segments<T>(y: seq<T>, sr: int): (segs: seq<seq<T>>)
    requires sr > 0
    ensures |segs| == TotalSeconds(|y|, sr)
    ensures forall k :: 0 <= k < |segs| ==> |segs[k]| == sr
  {
    seq(TotalSeconds(|y|, sr), k requires 0 <= k < TotalSeconds(|y|, sr) => Segment(y, sr, k))
  }

  /** Concatenation of a sequence of sequences. */
  function Concat<T>(ss: seq<seq<T>>): seq<T> {
    if ss == [] then [] else Concat(ss[..|ss| - 1]) + ss[|ss| - 1]
  }

  lemma {:induction false} ConcatSegmentsPrefix<T>(y: seq<T>, sr: int, m: nat)
    requires sr > 0 && m <= TotalSeconds(|y|, sr)
    ensures m * sr <= |y|
    ensures Concat(Segments(y, sr)[..m]) == y[..m * sr]
  {
    var segs := Segments(y, sr);
    if m == 0 {
      assert segs[..0] == [];
    } else {
      ConcatSegmentsPrefix(y, sr, m - 1);
      var lo, hi := SegmentSlice(y, sr, m - 1);
      assert Concat(segs[..m]) == Concat(segs[..m - 1]) + segs[m - 1] by {
        assert segs[..m][..m - 1] == segs[..m - 1];
      }
      assert y[..lo] + y[lo..hi] == y[..hi];
    }
  }

  /** Segment `k` is the slice from `k * sr` to `(k + 1) * sr`. */
  lemma SegmentSlice<T>(y: seq<T>, sr: int, k: nat) returns (lo: nat, hi: nat)
    requires sr > 0 && k < TotalSeconds(|y|, sr)
    ensures lo == k * sr && hi == (k + 1) * sr && lo + sr == hi <= |y|
    ensures Segments(y, sr)[k] == y[lo..hi]
  {
    SegmentBounds(|y|, sr, k);
    MulMonotone(0, k, sr);
    lo, hi := k * sr, (k + 1) * sr;
  }

  /** The segments, laid end to end, are exactly the samples up to the last
      whole second. */
  lemma SegmentsCoverPrefix<T>(y: seq<T>, sr: int)
    requires sr > 0
    ensures Concat(Segments(y, sr)) == y[..TotalSeconds(|y|, sr) * sr]
  {
    var segs := Segments(y, sr);
    ConcatSegmentsPrefix(y, sr, |segs|);
    assert segs[..|segs|] == segs;
  }

  /** Multiplying by a positive rate preserves order. */
  lemma MulMonotone(a: int, b: int, sr: int)
    requires a <= b && sr > 0
    ensures a * sr <= b * sr
  {
    assert b * sr - a * sr == (b - a) * sr;
  }

  /** Every sample before the cut belongs to exactly one segment: sample `i`
      sits at offset `i % sr` of segment `i / sr`, and no other segment's
      range contains it. */
  lemma SegmentOwner<T>(y: seq<T>, sr: int, i: nat, k: nat)
    requires sr > 0 && i < TotalSeconds(|y|, sr) * sr
    ensures i / sr < TotalSeconds(|y|, sr) && Segment(y, sr, i / sr)[i % sr] == y[i]
    ensures k * sr <= i < k * sr + sr <==> k == i / sr
  {
    OwnerInRange(|y|, sr, i);
    OwnerUnique(sr, i, k);
    var q, r := i / sr, i % sr;
    OwnerOffset(y, sr, q, r);
  }

  /** Offset `r` of second `q` is sample `q * sr + r`. */
  lemma OwnerOffset<T>(y: seq<T>, sr: int, q: nat, r: nat)
    requires sr > 0 && q < TotalSeconds(|y|, sr) && r < sr
    ensures q * sr + r < |y| && Segment(y, sr, q)[r] == y[q * sr + r]
  {
    MulMonotone(0, q, sr);
    SegmentBounds(|y|, sr, q);
    var s := Segment(y, sr, q);
    assert s[r] == y[q * sr + r];
  }

  /** A sample before the cut belongs to a whole second. */
  lemma OwnerInRange(n: nat, sr: int, i: nat)
    requires sr > 0 && i < TotalSeconds(n, sr) * sr
    ensures i / sr < TotalSeconds(n, sr)
  {
    var t, q := TotalSeconds(n, sr), i / sr;
    if q >= t {
      MulMonotone(t, q, sr);
    }
  }

  /** Second `i / sr` is the only one whose range holds sample `i`. */
  lemma OwnerUnique(sr: int, i: nat, k: nat)
    requires sr > 0
    ensures (i / sr) * sr + i % sr == i
    ensures k * sr <= i < k * sr + sr <==> k == i / sr
  {
    var q := i / sr;
    assert i == q * sr + i % sr;
    if k < q {
      MulMonotone(k + 1, q, sr);
    } else if k > q {
      MulMonotone(q + 1, k, sr);
    }
  }

  /** The samples dropped after the last whole second number fewer than `sr`. */
  lemma RemainderDropped<T>(y: seq<T>, sr: int)
    requires sr > 0
    ensures |y| - TotalSeconds(|y|, sr) * sr < sr
    ensures |y| - TotalSeconds(|y|, sr) * sr == |y| % sr
  {
  }

  // ---------------------------------------------------------------------
  // The feature dictionary (extract_features_segment)
  // ---------------------------------------------------------------------

  /** A dictionary value: a numpy array, or one coefficient `mfcc[i - 1]`. */
  datatype Feature = Vector(values: seq<real>) | Scalar(value: real)

  /** The key `f'MFCC_{i}'`: `MFCC_` followed by the decimal digits of `i`. */
  function MfccKey(i: nat): string {
    "MFCC_" + NatToString(i)
  }

  /** `MFCC_{i}` names its index: the text after `MFCC_` reads back as `i`. */
  lemma MfccKeyNumber(i: nat)
    ensures |MfccKey(i)| > 5 && MfccKey(i)[..5] == "MFCC_" && DigitsValue(MfccKey(i)[5..]) == i
  {
    assert MfccKey(i)[5..] == NatToString(i);
    NatToStringValue(i);
  }

  lemma MfccKeyInjective(i: nat, j: nat)
    requires MfccKey(i) == MfccKey(j)
    ensures i == j
  {
    PrefixedInjective("MFCC_", NatToString(i), NatToString(j));
    NatToStringInjective(i, j);
  }

  /** The keys of the six array-valued entries. */
  const AggregateKeys: set<string> :=
    {"Chromagram", "RMS", "Spectral_Centroid", "Spectral_Bandwidth",
     "Spectral_Rolloff", "Zero_Crossing_Rate"}

  /** `MFCC_1` up to but excluding `MFCC_n`. */
  function MfccKeys(n: nat): set<string> {
    set i | 1 <= i < n :: MfccKey(i)
  }

  lemma MfccKeyNotAggregate(i: nat)
    ensures MfccKey(i) !in AggregateKeys
  {
    assert MfccKey(i)[0] == 'M';
  }

  /** Key `MFCC_{i}` is new to a dictionary holding the aggregates and the
      earlier coefficients, and adding it extends the run of MFCC keys. */
  lemma MfccKeyFresh(i: nat)
    requires i >= 1
    ensures MfccKey(i) !in AggregateKeys + MfccKeys(i)
    ensures MfccKeys(i + 1) == MfccKeys(i) + {MfccKey(i)}
  {
    MfccKeyNotAggregate(i);
    forall j | 1 <= j < i ensures MfccKey(j) != MfccKey(i) {
      if MfccKey(j) == MfccKey(i) { MfccKeyInjective(j, i); }
    }
    assert MfccKeys(i + 1) == MfccKeys(i) + {MfccKey(i)};
  }

  /** `f` holds the six aggregate arrays of `a` and `MFCC_1` .. `MFCC_{n-1}`,
      and nothing else. */
  predicate FeaturesUpTo(f: map<string, Feature>, a: Analysis, n: nat)
    requires n <= MfccCount + 1 <= |a.mfcc| + 1
  {
    && f.Keys == AggregateKeys + MfccKeys(n)
    && f["Chromagram"] == Vector(a.chroma)
    && f["RMS"] == Vector(a.rms)
    && f["Spectral_Centroid"] == Vector(a.centroid)
    && f["Spectral_Bandwidth"] == Vector(a.bandwidth)
    && f["Spectral_Rolloff"] == Vector(a.rolloff)
    && f["Zero_Crossing_Rate"] == Vector(a.zcr)
    && forall i :: 1 <= i < n ==> f[MfccKey(i)] == Scalar(a.mfcc[i - 1])
  }

  /** `f` is the dictionary the source builds from the aggregates `a`. */
  predicate FeaturesOf(f: map<string, Feature>, a: Analysis)
    requires MfccCount <= |a.mfcc|
  {
    FeaturesUpTo(f, a, MfccCount + 1)
  }

  /** One turn of the MFCC loop: adding `MFCC_{i}` extends the dictionary by
      exactly that entry and disturbs none of the others. */
  lemma AddMfcc(f: map<string, Feature>, a: Analysis, i: nat)
    requires 1 <= i <= MfccCount <= |a.mfcc| && FeaturesUpTo(f, a, i)
    ensures FeaturesUpTo(f[MfccKey(i) := Scalar(a.mfcc[i - 1])], a, i + 1)
  {
    MfccKeyFresh(i);
  }

  /** Summarise one segment and add the keys `MFCC_1` .. `MFCC_20`. */
  method ExtractFeaturesSegment<T>(ySegment: seq<T>, sr: int, analyse: (seq<T>, int) -> Analysis)
    returns (features: map<string, Feature>)
    requires MfccCount <= |analyse(ySegment, sr).mfcc|
    ensures FeaturesOf(features, analyse(ySegment, sr))
  {
    var a := analyse(ySegment, sr);
    features := map[
      "Chromagram" := Vector(a.chroma),
      "RMS" := Vector(a.rms),
      "Spectral_Centroid" := Vector(a.centroid),
      "Spectral_Bandwidth" := Vector(a.bandwidth),
      "Spectral_Rolloff" := Vector(a.rolloff),
      "Zero_Crossing_Rate" := Vector(a.zcr)];
    assert MfccKeys(1) == {};
    for i := 1 to MfccCount + 1
      invariant FeaturesUpTo(features, a, i)
    {
      AddMfcc(features, a, i);
      features := features[MfccKey(i) := Scalar(a.mfcc[i - 1])];
    }
  }

  // ---------------------------------------------------------------------
  // Rows and the column header
  // ---------------------------------------------------------------------

  /** The dictionary has every entry the row expression reads, of the kind it
      reads it as. */
  predicate RowReady(f: map<string, Feature>) {
    && "Chromagram" in f && f["Chromagram"].Vector?
    && "RMS" in f && f["RMS"].Vector?
    && "Spectral_Centroid" in f && f["Spectral_Centroid"].Vector?
    && "Spectral_Bandwidth" in f && f["Spectral_Bandwidth"].Vector?
    && "Spectral_Rolloff" in f && f["Spectral_Rolloff"].Vector?
    && "Zero_Crossing_Rate" in f && f["Zero_Crossing_Rate"].Vector?
    && forall i :: 1 <= i <= MfccCount ==> MfccKey(i) in f && f[MfccKey(i)].Scalar?
  }

  /** `row_data`: the second, then the arrays in schema order, then the 20
      coefficients looked up by key. */
  function RowData(second: nat, f: map<string, Feature>): (row: seq<real>)
    requires RowReady(f)
    ensures |row| == 1 + |f["Chromagram"].values| + |f["RMS"].values|
      + |f["Spectral_Centroid"].values| + |f["Spectral_Bandwidth"].values|
      + |f["Spectral_Rolloff"].values| + |f["Zero_Crossing_Rate"].values| + MfccCount
    ensures row[0] == second as real
  {
    [second as real]
    + f["Chromagram"].values + f["RMS"].values + f["Spectral_Centroid"].values
    + f["Spectral_Bandwidth"].values + f["Spectral_Rolloff"].values
    + f["Zero_Crossing_Rate"].values
    + seq(MfccCount, j requires 0 <= j < MfccCount => f[MfccKey(j + 1)].value)
  }

  /** The row of second `second`, read directly off the aggregates. */
  function SegmentRow(second: nat, a: Analysis): seq<real>
    requires MfccCount <= |a.mfcc|
  {
    [second as real] + a.chroma + a.rms + a.centroid + a.bandwidth + a.rolloff + a.zcr
    + a.mfcc[..MfccCount]
  }

  /** Going through the dictionary loses and reorders nothing. */
  lemma RowDataMatchesAnalysis(second: nat, f: map<string, Feature>, a: Analysis)
    requires MfccCount <= |a.mfcc| && FeaturesOf(f, a)
    ensures RowReady(f)
    ensures RowData(second, f) == SegmentRow(second, a)
  {
    forall i | 1 <= i <= MfccCount ensures MfccKey(i) in f {
      assert MfccKey(i) in MfccKeys(MfccCount + 1);
    }
    var mf := seq(MfccCount, j requires 0 <= j < MfccCount => f[MfccKey(j + 1)].value);
    assert mf == a.mfcc[..MfccCount];
  }

  /** With librosa's shapes, a row has 38 values: `Time`, the 12 chroma bins,
      the five scalars, and `mfcc[0]` .. `mfcc[19]`. */
  lemma SegmentRowLayout(second: nat, a: Analysis)
    requires WellShaped(a)
    ensures |SegmentRow(second, a)| == ColumnCount
    ensures SegmentRow(second, a)[0] == second as real
    ensures forall i :: 0 <= i < ChromaBins ==> SegmentRow(second, a)[1 + i] == a.chroma[i]
    ensures SegmentRow(second, a)[13] == a.rms[0]
    ensures SegmentRow(second, a)[14] == a.centroid[0]
    ensures SegmentRow(second, a)[15] == a.bandwidth[0]
    ensures SegmentRow(second, a)[16] == a.rolloff[0]
    ensures SegmentRow(second, a)[17] == a.zcr[0]
    ensures forall j :: 0 <= j < MfccCount ==> SegmentRow(second, a)[18 + j] == a.mfcc[j]
  {
  }

  /** The header `columns`. */
  function Columns(): (cols: seq<string>)
    ensures |cols| == ColumnCount
  {
    ["Time"]
    + seq(ChromaBins, i requires 0 <= i < ChromaBins => "Chromagram_" + NatToString(i + 1))
    + ["RMS"] + ["Spectral_Centroid"] + ["Spectral_Bandwidth"] + ["Spectral_Rolloff"]
    + ["Zero_Crossing_Rate"]
    + seq(MfccCount, i requires 0 <= i < MfccCount => MfccKey(i + 1))
  }

  /** Column by column, the header names the value that `SegmentRowLayout`
      puts in that position. */
  lemma ColumnsLayout()
    ensures |Columns()| == ColumnCount
    ensures Columns()[0] == "Time"
    ensures forall i :: 1 <= i <= ChromaBins ==> Columns()[i] == "Chromagram_" + NatToString(i)
    ensures Columns()[13] == "RMS"
    ensures Columns()[14] == "Spectral_Centroid"
    ensures Columns()[15] == "Spectral_Bandwidth"
    ensures Columns()[16] == "Spectral_Rolloff"
    ensures Columns()[17] == "Zero_Crossing_Rate"
    ensures forall i :: 1 <= i <= MfccCount ==> Columns()[17 + i] == MfccKey(i)
  {
  }

  /** The first and last names of the two numbered runs, spelled out. */
  lemma ColumnsEdges()
    ensures Columns()[1] == "Chromagram_1"
    ensures Columns()[12] == "Chromagram_12"
    ensures Columns()[18] == "MFCC_1"
    ensures Columns()[37] == "MFCC_20"
  {
    ColumnsLayout();
    assert NatToString(1) == "1";
    assert NatToString(12) == "12";
    assert NatToString(20) == "20";
  }

  /** The 38 column names are pairwise distinct. */
  lemma ColumnsDistinct()
    ensures forall i, j :: 0 <= i < j < |Columns()| ==> Columns()[i] != Columns()[j]
  {
    var c := Columns();
    ColumnsLayout();
    forall i, j | 0 <= i < j < |c| ensures c[i] != c[j] {
      if 1 <= i <= ChromaBins && 1 <= j <= ChromaBins {
        if c[i] == c[j] {
          PrefixedInjective("Chromagram_", NatToString(i), NatToString(j));
          NatToStringInjective(i, j);
        }
      } else if 18 <= i && 18 <= j {
        if c[i] == c[j] { MfccKeyInjective(i - 17, j - 17); }
      } else if 14 <= i <= 16 && 14 <= j <= 16 {
        assert |c[i]| != |c[j]|;
      } else {
        assert c[i][0] != c[j][0];
      }
    }
  }

  // ---------------------------------------------------------------------
  // The segment loop and the table (process_audio_files)
  // ---------------------------------------------------------------------

  /** The rows the loop produces: one per whole second, in order. */
  function Rows<T(!new)>(y: seq<T>, sr: int, analyse: (seq<T>, int) -> Analysis): (rows: seq<seq<real>>)
    requires sr > 0 && YieldsMfccs(analyse, sr)
    ensures |rows| == TotalSeconds(|y|, sr)
    ensures forall k :: 0 <= k < |rows| ==> |rows[k]| > MfccCount && rows[k][0] == k as real
  {
    var segs := Segments(y, sr);
    seq(|segs|, k requires 0 <= k < |segs| => SegmentRow(k, analyse(segs[k], sr)))
  }

  /** The row the loop builds from the dictionary of second `second` is row
      `second` of the table. */
  lemma RowOfSecond<T(!new)>(y: seq<T>, sr: int, analyse: (seq<T>, int) -> Analysis, second: nat,
                             f: map<string, Feature>)
    requires sr > 0 && YieldsMfccs(analyse, sr) && second < TotalSeconds(|y|, sr)
    requires MfccCount <= |analyse(Segment(y, sr, second), sr).mfcc|
    requires FeaturesOf(f, analyse(Segment(y, sr, second), sr))
    ensures RowReady(f) && RowData(second, f) == Rows(y, sr, analyse)[second]
  {
    RowDataMatchesAnalysis(second, f, analyse(Segment(y, sr, second), sr));
  }

  /** Cut `y` into seconds and turn each second into a row. */
  method SegmentRows<T(!new)>(y: seq<T>, sr: int, analyse: (seq<T>, int) -> Analysis)
    returns (data: seq<seq<real>>)
    requires sr > 0 && YieldsMfccs(analyse, sr)
    ensures data == Rows(y, sr, analyse)
    ensures |data| == TotalSeconds(|y|, sr)
    ensures forall k :: 0 <= k < |data| ==> data[k][0] == k as real
    ensures |y| < sr ==> data == []
  {
    var samplesPerSecond := sr;
    var totalSeconds := |y| / samplesPerSecond;
    data := [];
    ghost var rows := Rows(y, sr, analyse);
    for second := 0 to totalSeconds
      invariant data == rows[..second]
    {
      var startSample := second * samplesPerSecond;
      var endSample := startSample + samplesPerSecond;
      assert 0 <= startSample <= endSample <= |y| && y[startSample..endSample] == Segment(y, sr, second) by {
        SegmentBounds(|y|, sr, second);
        MulMonotone(0, second, sr);
      }
      var ySegment := y[startSample..endSample];
      var features := ExtractFeaturesSegment(ySegment, sr, analyse);
      RowOfSecond(y, sr, analyse, second, features);
      var rowData := RowData(second, features);
      assert rows[..second + 1] == rows[..second] + [rowData];
      data := data + [rowData];
    }
    assert rows[..totalSeconds] == rows;
    if |y| < sr {
      NoWholeSecond(|y|, sr);
    }
  }

  /** A table with its header; `rows[k]` holds one value per column. */
  datatype Frame = Frame(columns: seq<string>, rows: seq<seq<real>>)

  /** The reason the table constructor refuses its input: the header names
      `expected` columns but some row has `actual` values. */
  datatype FrameError = ColumnCountMismatch(expected: nat, actual: nat)

  /** The index of the first row whose width is not `width`, if any. */
  function FirstMisfit(data: seq<seq<real>>, width: nat): (r: Option<nat>)
    ensures r.None? <==> forall k :: 0 <= k < |data| ==> |data[k]| == width
    ensures r.Some? ==> r.value < |data| && |data[r.value]| != width
    ensures r.Some? ==> forall k :: 0 <= k < r.value ==> |data[k]| == width
  {
    if data == [] then None
    else if |data[0]| != width then Some(0)
    else match FirstMisfit(data[1..], width)
      case None => None
      case Some(k) => Some(k + 1)
  }

  /** `pd.DataFrame(data, columns=columns)`. */
  function MakeFrame(data: seq<seq<real>>, columns: seq<string>): (r: Result<Frame, FrameError>)
    ensures r.Ok? <==> forall k :: 0 <= k < |data| ==> |data[k]| == |columns|
    ensures r.Ok? ==> r.value.columns == columns && r.value.rows == data
    ensures r.Err? ==> r.error.expected == |columns| && r.error.actual != |columns|
  {
    match FirstMisfit(data, |columns|)
    case None => Ok(Frame(columns, data))
    case Some(k) => Err(ColumnCountMismatch(|columns|, |data[k]|))
  }

  /** With librosa's shapes every row fits the header, so the table is built. */
  lemma RowsFitColumns<T(!new)>(y: seq<T>, sr: int, analyse: (seq<T>, int) -> Analysis)
    requires sr > 0 && Shaped(analyse, sr)
    ensures YieldsMfccs(analyse, sr)
    ensures forall k :: 0 <= k < |Rows(y, sr, analyse)| ==> |Rows(y, sr, analyse)[k]| == |Columns()|
    ensures MakeFrame(Rows(y, sr, analyse), Columns()) == Ok(Frame(Columns(), Rows(y, sr, analyse)))
  {
    ShapedYieldsMfccs(analyse, sr);
    ColumnsLayout();
    var segs := Segments(y, sr);
    forall k | 0 <= k < |segs| ensures |Rows(y, sr, analyse)[k]| == |Columns()| {
      assert WellShaped(analyse(segs[k], sr));
      SegmentRowLayout(k, analyse(segs[k], sr));
    }
  }

  /** A waveform shorter than one second gives a header and no rows. */
  lemma ShortWaveformEmptyTable<T(!new)>(y: seq<T>, sr: int, analyse: (seq<T>, int) -> Analysis)
    requires sr > 0 && Shaped(analyse, sr) && |y| < sr
    ensures YieldsMfccs(analyse, sr)
    ensures MakeFrame(Rows(y, sr, analyse), Columns()) == Ok(Frame(Columns(), []))
  {
    NoWholeSecond(|y|, sr);
    RowsFitColumns(y, sr, analyse);
  }

  /** 3.5 seconds at 22050 Hz: three rows, at times 0, 1 and 2. */
  lemma ThreeAndAHalfSeconds<T(!new)>(y: seq<T>, analyse: (seq<T>, int) -> Analysis)
    requires |y| == 77175 && YieldsMfccs(analyse, 22050)
    ensures |Rows(y, 22050, analyse)| == 3
    ensures Rows(y, 22050, analyse)[0][0] == 0.0
    ensures Rows(y, 22050, analyse)[1][0] == 1.0
    ensures Rows(y, 22050, analyse)[2][0] == 2.0
  {
    assert TotalSeconds(77175, 22050) == 3;
  }

  // ---------------------------------------------------------------------
  // Output names and the walk over the files
  // ---------------------------------------------------------------------

  /** `filename.replace('.flac', '.csv')`; a `.flac` name becomes a `.csv`
      name. */
  function CsvFilename(filename: string): (csv: string)
    ensures EndsWith(filename, ".flac") ==> EndsWith(csv, ".csv")
  {
    if EndsWith(filename, ".flac") then
      var p := filename[..|filename| - 5];
      ReplaceFlacSuffix(p);
      EndsWithAppend(ReplaceAll(p, ".flac", ".csv"), ".csv");
      ReplaceAll(filename, ".flac", ".csv")
    else
      ReplaceAll(filename, ".flac", ".csv")
  }

  /** A partial `.flac` can never be completed by another `.flac`: fewer
      than five characters followed by `.flac` do not start with `.flac`. */
  lemma FlacNoSelfOverlap(p: string)
    requires 1 <= |p| < 5
    ensures !OccursAt(p + ".flac", ".flac", 0)
  {
    var s := p + ".flac";
    if |p| == 1 { assert s[1] == '.'; }
    else if |p| == 2 { assert s[2] == '.'; }
    else if |p| == 3 { assert s[3] == '.'; }
    else { assert s[4] == '.'; }
  }

  /** `.flac` cannot overlap itself, so the trailing `.flac` of a name is
      always one of the occurrences that `replace` rewrites. */
  lemma {:induction false} ReplaceFlacSuffix(p: string)
    ensures ReplaceAll(p + ".flac", ".flac", ".csv") == ReplaceAll(p, ".flac", ".csv") + ".csv"
    decreases |p|
  {
    var s := p + ".flac";
    if |p| == 0 {
      assert s == ".flac";
      assert OccursAt(s, ".flac", 0);
      assert s[5..] == [];
    } else if |p| < 5 {
      ReplaceAllShort(p, ".flac", ".csv");
      FlacNoSelfOverlap(p);
      assert s[1..] == p[1..] + ".flac";
      ReplaceFlacSuffix(p[1..]);
      ReplaceAllShort(p[1..], ".flac", ".csv");
    } else if OccursAt(p, ".flac", 0) {
      assert s[0..5] == p[0..5];
      assert s[5..] == p[5..] + ".flac";
      ReplaceFlacSuffix(p[5..]);
    } else {
      assert s[0..5] == p[0..5];
      assert s[1..] == p[1..] + ".flac";
      ReplaceFlacSuffix(p[1..]);
    }
  }

  /** `replace` rewrites every `.flac`, not only a trailing one: the text
      around any occurrence that starts a left-to-right scan's match is
      rewritten on its own, and the occurrence becomes `.csv`. */
  lemma {:induction false} ReplaceFlacSplit(a: string, b: string)
    ensures ReplaceAll(a + ".flac" + b, ".flac", ".csv") == ReplaceAll(a, ".flac", ".csv") + ".csv" + ReplaceAll(b, ".flac", ".csv")
    decreases |a|
  {
    if |a| == 0 {
      SplitAtFront(a, b);
    } else if |a| < 5 {
      ReplaceFlacSplit(a[1..], b);
      SplitShortFront(a, b);
    } else if OccursAt(a, ".flac", 0) {
      ReplaceFlacSplit(a[5..], b);
      SplitMatchFront(a, b);
    } else {
      ReplaceFlacSplit(a[1..], b);
      SplitSkipFront(a, b);
    }
  }

  /** The split law when `.flac` opens the name. */
  lemma SplitAtFront(a: string, b: string)
    requires a == []
    ensures ReplaceAll(a + ".flac" + b, ".flac", ".csv") == ReplaceAll(a, ".flac", ".csv") + ".csv" + ReplaceAll(b, ".flac", ".csv")
  {
    var s := a + ".flac" + b;
    assert s == ".flac" + b;
    ReplaceAllMatch(s, ".flac", ".csv");
    assert s[5..] == b;
  }

  /** The split law for a stem shorter than `.flac`, from the law for its tail. */
  lemma SplitShortFront(a: string, b: string)
    requires 0 < |a| < 5
    requires ReplaceAll(a[1..] + ".flac" + b, ".flac", ".csv") == ReplaceAll(a[1..], ".flac", ".csv") + ".csv" + ReplaceAll(b, ".flac", ".csv")
    ensures ReplaceAll(a + ".flac" + b, ".flac", ".csv") == ReplaceAll(a, ".flac", ".csv") + ".csv" + ReplaceAll(b, ".flac", ".csv")
  {
    var tail, rb := ReplaceAll(a[1..], ".flac", ".csv"), ReplaceAll(b, ".flac", ".csv");
    ShortStemSkip(a, b);
    assert ReplaceAll(a, ".flac", ".csv") == [a[0]] + tail by {
      ReplaceAllShort(a, ".flac", ".csv");
      ReplaceAllShort(a[1..], ".flac", ".csv");
      assert a == [a[0]] + a[1..];
    }
    AppendAssociative([a[0]], tail + ".csv", rb);
    AppendAssociative([a[0]], tail, ".csv");
  }

  /** A stem shorter than `.flac` cannot start a match that reaches into the
      `.flac` after it, so its first character is kept. */
  lemma ShortStemSkip(a: string, b: string)
    requires 0 < |a| < 5
    ensures ReplaceAll(a + ".flac" + b, ".flac", ".csv")
         == [a[0]] + ReplaceAll(a[1..] + ".flac" + b, ".flac", ".csv")
  {
    var s := a + ".flac" + b;
    FlacNoSelfOverlap(a);
    assert s[0..5] == (a + ".flac")[0..5];
    ReplaceAllSkip(s, ".flac", ".csv");
    assert s[1..] == a[1..] + ".flac" + b;
  }

  /** The split law for a stem that opens with `.flac`, from the law for
      the rest of the stem. */
  lemma SplitMatchFront(a: string, b: string)
    requires |a| >= 5 && OccursAt(a, ".flac", 0)
    requires ReplaceAll(a[5..] + ".flac" + b, ".flac", ".csv") == ReplaceAll(a[5..], ".flac", ".csv") + ".csv" + ReplaceAll(b, ".flac", ".csv")
    ensures ReplaceAll(a + ".flac" + b, ".flac", ".csv") == ReplaceAll(a, ".flac", ".csv") + ".csv" + ReplaceAll(b, ".flac", ".csv")
  {
    var s := a + ".flac" + b;
    var rest, rb := ReplaceAll(a[5..], ".flac", ".csv"), ReplaceAll(b, ".flac", ".csv");
    assert ReplaceAll(s, ".flac", ".csv") == ".csv" + ReplaceAll(a[5..] + ".flac" + b, ".flac", ".csv") by {
      assert s[0..5] == a[0..5];
      ReplaceAllMatch(s, ".flac", ".csv");
      assert s[5..] == a[5..] + ".flac" + b;
    }
    assert ReplaceAll(a, ".flac", ".csv") == ".csv" + rest by {
      ReplaceAllMatch(a, ".flac", ".csv");
    }
    AppendAssociative(".csv", rest + ".csv", rb);
    AppendAssociative(".csv", rest, ".csv");
  }

  /** The split law for a long stem that does not open with `.flac`, from
      the law for its tail. */
  lemma SplitSkipFront(a: string, b: string)
    requires |a| >= 5 && !OccursAt(a, ".flac", 0)
    requires ReplaceAll(a[1..] + ".flac" + b, ".flac", ".csv") == ReplaceAll(a[1..], ".flac", ".csv") + ".csv" + ReplaceAll(b, ".flac", ".csv")
    ensures ReplaceAll(a + ".flac" + b, ".flac", ".csv") == ReplaceAll(a, ".flac", ".csv") + ".csv" + ReplaceAll(b, ".flac", ".csv")
  {
    var s := a + ".flac" + b;
    var tail, rb := ReplaceAll(a[1..], ".flac", ".csv"), ReplaceAll(b, ".flac", ".csv");
    assert ReplaceAll(s, ".flac", ".csv") == [a[0]] + ReplaceAll(a[1..] + ".flac" + b, ".flac", ".csv") by {
      assert s[0..5] == a[0..5];
      ReplaceAllSkip(s, ".flac", ".csv");
      assert s[1..] == a[1..] + ".flac" + b;
    }
    assert ReplaceAll(a, ".flac", ".csv") == [a[0]] + tail by {
      ReplaceAllSkip(a, ".flac", ".csv");
    }
    AppendAssociative([a[0]], tail + ".csv", rb);
    AppendAssociative([a[0]], tail, ".csv");
  }

  /** The output name rewrites each `.flac` of the recording's name, wherever
      it occurs. */
  lemma CsvFilenameSplit(a: string, b: string)
    ensures CsvFilename(a + ".flac" + b) == CsvFilename(a) + ".csv" + CsvFilename(b)
  {
    ReplaceFlacSplit(a, b);
  }

  /** The table of a `.flac` recording is written under a `.csv` name
      obtained by rewriting its trailing `.flac`. */
  lemma CsvFilenameOfFlac(filename: string)
    requires EndsWith(filename, ".flac")
    ensures CsvFilename(filename) == CsvFilename(filename[..|filename| - 5]) + ".csv"
    ensures EndsWith(CsvFilename(filename), ".csv")
  {
    var p := filename[..|filename| - 5];
    assert filename == p + ".flac";
    ReplaceFlacSuffix(p);
  }

  /** A decoded and trimmed recording. */
  datatype Waveform<T> = Waveform(samples: seq<T>, rate: int)

  /** What one recording turns into: the file name and the table written. */
  datatype CsvFile = CsvFile(name: string, frame: Frame)

  /** The body of the walk for one `.flac` recording. */
  method ProcessAudioFile<T(!new)>(filename: string, wave: Waveform<T>, analyse: (seq<T>, int) -> Analysis)
    returns (out: CsvFile)
    requires wave.rate > 0 && Shaped(analyse, wave.rate)
    ensures YieldsMfccs(analyse, wave.rate)
    ensures out == CsvFile(CsvFilename(filename), Frame(Columns(), Rows(wave.samples, wave.rate, analyse)))
    ensures |out.frame.columns| == ColumnCount
    ensures |out.frame.rows| == TotalSeconds(|wave.samples|, wave.rate)
    ensures forall k :: 0 <= k < |out.frame.rows| ==> |out.frame.rows[k]| == ColumnCount
  {
    ShapedYieldsMfccs(analyse, wave.rate);
    var data := SegmentRows(wave.samples, wave.rate, analyse);
    RowsFitColumns(wave.samples, wave.rate, analyse);
    ColumnsLayout();
    var df := MakeFrame(data, Columns());
    out := CsvFile(CsvFilename(filename), df.value);
  }

  /** The names the walk processes: those ending in `.flac`, in order. */
  function FlacFiles(names: seq<string>): (r: seq<string>)
    ensures |r| <= |names|
    ensures forall n :: n in r <==> n in names && EndsWith(n, ".flac")
  {
    if names == [] then []
    else
      var last := names[|names| - 1];
      assert names == names[..|names| - 1] + [last];
      FlacFiles(names[..|names| - 1]) + (if EndsWith(last, ".flac") then [last] else [])
  }

  /** Filtering a listing split in two filters each part, in order. */
  lemma {:induction false} FlacFilesAppend(a: seq<string>, b: seq<string>)
    ensures FlacFiles(a + b) == FlacFiles(a) + FlacFiles(b)
    decreases |b|
  {
    if b == [] {
      assert a + b == a;
    } else {
      var b' := b[..|b| - 1];
      assert (a + b)[..|a + b| - 1] == a + b';
      assert (a + b)[|a + b| - 1] == b[|b| - 1];
      FlacFilesAppend(a, b');
    }
  }

  /** A single name is kept exactly when it ends in `.flac`. */
  lemma FlacFilesSingle(n: string)
    ensures FlacFiles([n]) == if EndsWith(n, ".flac") then [n] else []
  {
    assert [n][..0] == [];
  }

  /** What the walk writes for the recording `name`. */
  function CsvFor<T(!new)>(name: string, load: string -> Waveform<T>, analyse: (seq<T>, int) -> Analysis): CsvFile
    requires load(name).rate > 0 && YieldsMfccs(analyse, load(name).rate)
  {
    var w := load(name);
    CsvFile(CsvFilename(name), Frame(Columns(), Rows(w.samples, w.rate, analyse)))
  }

  /** The loader decodes every listed `.flac` name, with a positive rate, and
      the analysis has librosa's shapes at that rate. */
  ghost predicate Decodable<T(!new)>(filenames: seq<string>, load: string -> Waveform<T>,
                                     analyse: (seq<T>, int) -> Analysis) {
    forall n :: n in filenames && EndsWith(n, ".flac") ==> load(n).rate > 0 && Shaped(analyse, load(n).rate)
  }

  /** The walk over the listed files: each `.flac` recording is loaded,
      tabulated and written; every other file is skipped. */
  method ProcessAudioFiles<T(!new)>(filenames: seq<string>, load: string -> Waveform<T>,
                                    analyse: (seq<T>, int) -> Analysis)
    returns (written: seq<CsvFile>)
    requires Decodable(filenames, load, analyse)
    ensures |written| == |FlacFiles(filenames)|
    ensures forall j :: 0 <= j < |written| ==>
      var name := FlacFiles(filenames)[j];
      load(name).rate > 0 && YieldsMfccs(analyse, load(name).rate) &&
      written[j] == CsvFor(name, load, analyse)
    ensures forall j :: 0 <= j < |written| ==> EndsWith(written[j].name, ".csv")
  {
    written := [];
    for i := 0 to |filenames|
      invariant |written| == |FlacFiles(filenames[..i])|
      invariant forall j :: 0 <= j < |written| ==>
        var name := FlacFiles(filenames[..i])[j];
        load(name).rate > 0 && YieldsMfccs(analyse, load(name).rate) &&
        written[j] == CsvFor(name, load, analyse)
      invariant forall j :: 0 <= j < |written| ==> EndsWith(written[j].name, ".csv")
    {
      var filename := filenames[i];
      assert filenames[..i + 1][..i] == filenames[..i];
      if EndsWith(filename, ".flac") {
        var wave := load(filename);
        var out := ProcessAudioFile(filename, wave, analyse);
        CsvFilenameOfFlac(filename);
        written := written + [out];
      }
    }
    assert filenames[..|filenames|] == filenames;
  }
}
