/**
 * The telemetry body parser `parse_telem`: a body must start with the
 * literal `TELEM|`; it is stripped, split on `|`, its first segment is
 * dropped, every remaining segment holding an `=` is split at its first
 * `=` into a key and a value, segments without `=` are ignored, and a key
 * that repeats keeps the value of its last occurrence.
 */
module TelemParse {
  import opened Wrappers
  import opened PyStr

  type Fields = map<string, string>

  /** The one way `parse_telem` fails: `ValueError("bad prefix")`. */
  datatype ParseError = BadPrefix {
    function Message(): string {
      "bad prefix"
    }
  }

  const Prefix: string := "TELEM|"

  /** The segments the parser walks: `raw.strip().split("|")[1:]`. */
  function Chunks(raw: string): seq<string> {
    Split(Strip(raw), '|')[1..]
  }

  /** The key of a segment holding `=`: the text before its first `=`. */
  function Key(chunk: string): string
    requires '=' in chunk
  {
    SplitOnce(chunk, '=').0
  }

  /** The value of a segment holding `=`: the text after its first `=`. */
  function Value(chunk: string): string
    requires '=' in chunk
  {
    SplitOnce(chunk, '=').1
  }

  /** The dictionary built by visiting `chunks` in order, each `k=v`
      segment overwriting any earlier entry for `k`. */
  function Collect(chunks: seq<string>): (m: Fields)
    ensures |m| <= |chunks|
  {
    if chunks == [] then map[]
    else
      var acc := Collect(chunks[..|chunks| - 1]);
      var c := chunks[|chunks| - 1];
      if '=' in c then
        assert acc[Key(c) := Value(c)].Keys == acc.Keys + {Key(c)};
        acc[Key(c) := Value(c)]
      else acc
  }

  /** `parse_telem(raw)` as a value: the prefix test is made on `raw` as
      given, before it is stripped. */
  function Parse(raw: string): (r: Result<Fields, ParseError>)
    ensures r.Failure? <==> !StartsWith(raw, Prefix)
  {
    if !StartsWith(raw, Prefix) then Failure(BadPrefix)
    else Success(Collect(Chunks(raw)))
  }

  /** `parse_telem`: the loop over the segments fills `out` in place. */
  method ParseTelem(raw: string) returns (r: Result<Fields, ParseError>)
    ensures r.Failure? <==> !StartsWith(raw, Prefix)
    ensures r == Parse(raw)
  {
    if !StartsWith(raw, Prefix) {
      return Failure(BadPrefix);
    }
    var chunks := Split(Strip(raw), '|')[1..];
    var out: Fields := map[];
    for i := 0 to |chunks|
      invariant out == Collect(chunks[..i])
    {
      var chunk := chunks[i];
      CollectStep(chunks, i);
      if '=' in chunk {
        var kv := SplitOnce(chunk, '=');
        out := out[kv.0 := kv.1];
      }
    }
    assert chunks[..|chunks|] == chunks;
    return Success(out);
  }

  /** One more segment walked: a `k=v` segment sets `k`, a bare one is skipped. */
  lemma CollectStep(chunks: seq<string>, i: nat)
    requires i < |chunks|
    ensures '=' in chunks[i] ==>
      Collect(chunks[..i + 1]) == Collect(chunks[..i])[Key(chunks[i]) := Value(chunks[i])]
    ensures '=' !in chunks[i] ==> Collect(chunks[..i + 1]) == Collect(chunks[..i])
  {
    assert chunks[..i + 1][..i] == chunks[..i];
  }

  /** A key is present exactly when some segment holding `=` carries it. */
  lemma {:induction false} CollectKeys(chunks: seq<string>, k: string)
    ensures k in Collect(chunks) <==>
      exists j | 0 <= j < |chunks| :: '=' in chunks[j] && Key(chunks[j]) == k
  {
    if chunks != [] {
      var init := chunks[..|chunks| - 1];
      CollectKeys(init, k);
      forall j | 0 <= j < |init| ensures init[j] == chunks[j] { }
    }
  }

  /** A key holds the value of its last occurrence. */
  lemma {:induction false} CollectLastWins(chunks: seq<string>, j: nat)
    requires j < |chunks| && '=' in chunks[j]
    requires forall j' | j < j' < |chunks| && '=' in chunks[j'] ::
      Key(chunks[j']) != Key(chunks[j])
    ensures Key(chunks[j]) in Collect(chunks)
    ensures Collect(chunks)[Key(chunks[j])] == Value(chunks[j])
  {
    if j < |chunks| - 1 {
      var init := chunks[..|chunks| - 1];
      assert init[j] == chunks[j];
      forall j' | j < j' < |init| && '=' in init[j']
        ensures Key(init[j']) != Key(init[j])
      {
        assert init[j'] == chunks[j'];
      }
      CollectLastWins(init, j);
    }
  }

  /** Every entry comes from some segment: its key is that segment's text
      before the first `=` and its value the text after it. */
  lemma {:induction false} CollectEntries(chunks: seq<string>, k: string)
    requires k in Collect(chunks)
    ensures exists j | 0 <= j < |chunks| ::
      '=' in chunks[j] && Key(chunks[j]) == k && Value(chunks[j]) == Collect(chunks)[k]
  {
    var init := chunks[..|chunks| - 1];
    var c := chunks[|chunks| - 1];
    if '=' in c && Key(c) == k {
      assert chunks[|chunks| - 1] == c;
    } else {
      CollectEntries(init, k);
      var j :| 0 <= j < |init| && '=' in init[j] && Key(init[j]) == k
        && Value(init[j]) == Collect(init)[k];
      assert chunks[j] == init[j];
    }
  }

  /** The parser fails, with "bad prefix", exactly when the raw text does
      not start with `TELEM|`; every other input is accepted. */
  lemma ParseFailsOnlyOnPrefix(raw: string)
    ensures Parse(raw).Failure? <==> !StartsWith(raw, Prefix)
    ensures Parse(raw).Failure? ==> Parse(raw).error.Message() == "bad prefix"
  {
  }

  /** The dropped first segment of an accepted body is exactly `TELEM`,
      and the segments that follow are those of the text after `TELEM|`. */
  lemma FirstSegmentIsTelem(raw: string)
    requires StartsWith(raw, Prefix)
    ensures StartsWith(Strip(raw), Prefix)
    ensures Split(Strip(raw), '|')[0] == "TELEM"
    ensures Chunks(raw) == Split(Strip(raw)[|Prefix|..], '|')
  {
    StripKeepsPrefix(raw, Prefix);
    var s := Strip(raw);
    assert s == "TELEM" + ['|'] + s[|Prefix|..];
    SplitAfterPiece("TELEM", '|', s[|Prefix|..]);
  }

  /** A segment holding `=` is its key, `=` and its value; the key holds
      no `=`, and neither part holds a `|` the segment does not. */
  lemma SegmentParts(c: string)
    requires '=' in c
    ensures c == Key(c) + "=" + Value(c)
    ensures '=' !in Key(c)
    ensures '|' !in c ==> '|' !in Key(c) && '|' !in Value(c)
  {
    var kv := SplitOnce(c, '=');
    assert c == kv.0 + ['='] + kv.1;
    if '|' !in c {
      forall i | 0 <= i < |kv.0| ensures kv.0[i] != '|' {
        assert kv.0[i] == c[i];
      }
      forall i | 0 <= i < |kv.1| ensures kv.1[i] != '|' {
        assert kv.1[i] == c[|kv.0| + 1 + i];
      }
    }
  }

  /** `seg` is a `k=v` segment: it holds `=`, with `k` before the first
      one and `v` after it. */
  predicate Carries(seg: string, k: string, v: string) {
    '=' in seg && Key(seg) == k && Value(seg) == v
  }

  /** Every entry of a parsed body is the split, at its first `=`, of a
      segment after the first. */
  lemma ParsedEntrySource(raw: string, k: string)
    requires Parse(raw).Success? && k in Parse(raw).value
    ensures exists j | 1 <= j < |Split(Strip(raw), '|')| ::
      Carries(Split(Strip(raw), '|')[j], k, Parse(raw).value[k])
  {
    var segs := Split(Strip(raw), '|');
    var chunks := Chunks(raw);
    var m := Collect(chunks);
    assert Parse(raw).value == m;
    CollectEntries(chunks, k);
    var i :| 0 <= i < |chunks| && '=' in chunks[i] && Key(chunks[i]) == k
      && Value(chunks[i]) == m[k];
    assert segs[i + 1] == chunks[i];
    assert Carries(segs[i + 1], k, m[k]);
  }

  /** In a parsed body no key contains `=` or `|` and no value contains
      `|`. */
  lemma ParsedEntryClean(raw: string, k: string)
    requires Parse(raw).Success? && k in Parse(raw).value
    ensures '=' !in k && '|' !in k && '|' !in Parse(raw).value[k]
  {
    ParsedEntrySource(raw, k);
    var segs := Split(Strip(raw), '|');
    assert exists j | 1 <= j < |segs| :: Carries(segs[j], k, Parse(raw).value[k]);
    var j :| 1 <= j < |segs| && Carries(segs[j], k, Parse(raw).value[k]);
    SegmentParts(segs[j]);
  }

  /** For an accepted body, the key of a segment after the first holding
      `=` is present, with the value of the last segment carrying that key.
      (That every present key comes from such a segment is
      `ParsedEntrySource`.) */
  lemma ParsedKeyLastWins(raw: string, j: nat)
    requires StartsWith(raw, Prefix)
    requires var segs := Split(Strip(raw), '|');
      1 <= j < |segs| && '=' in segs[j] &&
      forall j' | j < j' < |segs| && '=' in segs[j'] :: Key(segs[j']) != Key(segs[j])
    ensures var segs := Split(Strip(raw), '|');
      Key(segs[j]) in Parse(raw).value && Parse(raw).value[Key(segs[j])] == Value(segs[j])
  {
    var segs := Split(Strip(raw), '|');
    var chunks := Chunks(raw);
    assert chunks[j - 1] == segs[j];
    forall j' | j - 1 < j' < |chunks| && '=' in chunks[j']
      ensures Key(chunks[j']) != Key(chunks[j - 1])
    {
      assert chunks[j'] == segs[j' + 1];
    }
    CollectLastWins(chunks, j - 1);
  }

  /** Segments without `=` never contribute: removing one, wherever it
      stands, leaves the parsed dictionary unchanged. */
  lemma {:induction false} BareSegmentsIgnored(a: seq<string>, bare: string, b: seq<string>)
    requires '=' !in bare
    ensures Collect(a + [bare] + b) == Collect(a + b)
  {
    if b == [] {
      assert a + [bare] + b == a + [bare];
      assert (a + [bare])[..|a|] == a;
      assert a + b == a;
    } else {
      var init := b[..|b| - 1];
      var c := b[|b| - 1];
      BareSegmentsIgnored(a, bare, init);
      assert (a + [bare] + b)[..|a + [bare] + b| - 1] == a + [bare] + init;
      assert (a + b)[..|a + b| - 1] == a + init;
      assert (a + [bare] + b)[|a + [bare] + b| - 1] == c;
      assert (a + b)[|a + b| - 1] == c;
    }
  }

  // ---------- Serialising a list of pairs ----------

  /** The dictionary a sequence of pairs denotes when later pairs overwrite
      earlier ones. */
  function ToMap(pairs: seq<(string, string)>): Fields
  {
    if pairs == [] then map[]
    else
      var p := pairs[|pairs| - 1];
      ToMap(pairs[..|pairs| - 1])[p.0 := p.1]
  }

  function Segment(p: (string, string)): string {
    p.0 + "=" + p.1
  }

  function Segments(pairs: seq<(string, string)>): (r: seq<string>)
    ensures |r| == |pairs|
    ensures forall i | 0 <= i < |pairs| :: r[i] == Segment(pairs[i])
  {
    if pairs == [] then [] else Segments(pairs[..|pairs| - 1]) + [Segment(pairs[|pairs| - 1])]
  }

  /** `TELEM|k1=v1|k2=v2|...`; an empty list gives `TELEM|`. */
  function Serialize(pairs: seq<(string, string)>): string {
    Prefix + Join(Segments(pairs), '|')
  }

  /** The pairs a body can carry: keys free of `=` and `|`, values free
      of `|`, and a last value that `strip()` would not shorten. */
  predicate Representable(pairs: seq<(string, string)>) {
    && (forall i | 0 <= i < |pairs| :: '=' !in pairs[i].0 && '|' !in pairs[i].0 && '|' !in pairs[i].1)
    && (pairs != [] ==> var v := pairs[|pairs| - 1].1; v == [] || !IsSpace(v[|v| - 1]))
  }

  lemma {:induction false} CollectSegments(pairs: seq<(string, string)>)
    requires forall i | 0 <= i < |pairs| :: '=' !in pairs[i].0
    ensures Collect(Segments(pairs)) == ToMap(pairs)
  {
    if pairs != [] {
      var n := |pairs|;
      var segs := Segments(pairs);
      assert segs[..n - 1] == Segments(pairs[..n - 1]);
      CollectSegments(pairs[..n - 1]);
      var p := pairs[n - 1];
      SplitOnceExact(p.0, '=', p.1);
      assert segs[n - 1] == p.0 + ['='] + p.1;
    }
  }

  /** A non-empty serialised body ends with its last segment. */
  lemma SerializeEndsWithLast(pairs: seq<(string, string)>)
    requires pairs != []
    ensures var s := Serialize(pairs); var last := Segment(pairs[|pairs| - 1]);
      |last| <= |s| && s[|s| - |last|..] == last
  {
    var s := Serialize(pairs);
    var segs := Segments(pairs);
    var last := segs[|segs| - 1];
    JoinEndsWithLast(segs, '|');
    var j := Join(segs, '|');
    assert s[|s| - |last|..] == j[|j| - |last|..];
  }

  /** The serialised body ends as its last value does (or with `=` or `|`
      when that is empty), so `strip()` leaves it whole. */
  lemma SerializeStripped(pairs: seq<(string, string)>)
    requires Representable(pairs)
    ensures Strip(Serialize(pairs)) == Serialize(pairs)
  {
    var s := Serialize(pairs);
    if pairs == [] {
      assert s == "TELEM|";
    } else {
      var p := pairs[|pairs| - 1];
      var last := Segment(p);
      SerializeEndsWithLast(pairs);
      assert s[|s| - 1] == last[|last| - 1];
      assert last == p.0 + "=" + p.1;
      assert !IsSpace(last[|last| - 1]);
    }
    assert s[0] == 'T';
    StripKeeps(s);
  }

  /** The segments the parser walks in a serialised body are the pairs'
      segments (a lone empty segment when there are no pairs). */
  lemma SerializeChunks(pairs: seq<(string, string)>)
    requires Representable(pairs)
    ensures Chunks(Serialize(pairs)) == if pairs == [] then [""] else Segments(pairs)
  {
    var s := Serialize(pairs);
    var segs := Segments(pairs);
    var j := Join(segs, '|');
    SerializeStripped(pairs);
    SplitPrefixed(j);
    assert Chunks(s) == (["TELEM"] + Split(j, '|'))[1..] == Split(j, '|');
    if pairs == [] {
      assert j == "";
    } else {
      SegmentsFreeOfBar(pairs);
      SplitJoin(segs, '|');
    }
  }

  /** Splitting `TELEM|` followed by `t` yields `TELEM` and the pieces of `t`. */
  lemma SplitPrefixed(t: string)
    ensures Split(Prefix + t, '|') == ["TELEM"] + Split(t, '|')
  {
    assert Prefix + t == "TELEM" + ['|'] + t;
    SplitAfterPiece("TELEM", '|', t);
  }

  lemma SegmentsFreeOfBar(pairs: seq<(string, string)>)
    requires Representable(pairs)
    ensures forall i | 0 <= i < |pairs| :: '|' !in Segments(pairs)[i]
  {
    var segs := Segments(pairs);
    forall i | 0 <= i < |segs| ensures '|' !in segs[i] {
      assert segs[i] == pairs[i].0 + "=" + pairs[i].1;
    }
  }

  /** Round trip: parsing a serialised list of representable pairs yields
      the dictionary those pairs denote. */
  lemma RoundTrip(pairs: seq<(string, string)>)
    requires Representable(pairs)
    ensures Parse(Serialize(pairs)) == Success(ToMap(pairs))
  {
    assert StartsWith(Serialize(pairs), Prefix);
    SerializeChunks(pairs);
    CollectSegments(pairs);
    if pairs == [] {
      assert Collect([""]) == Collect([]);
    }
  }

  /** With distinct keys, every pair survives the round trip as it was
      written, and nothing else appears. */
  lemma {:induction false} ToMapDistinct(pairs: seq<(string, string)>)
    requires forall i, j | 0 <= i < j < |pairs| :: pairs[i].0 != pairs[j].0
    ensures ToMap(pairs).Keys == set i | 0 <= i < |pairs| :: pairs[i].0
    ensures forall i | 0 <= i < |pairs| :: ToMap(pairs)[pairs[i].0] == pairs[i].1
  {
    if pairs != [] {
      var init := pairs[..|pairs| - 1];
      ToMapDistinct(init);
      forall i | 0 <= i < |init| ensures init[i] == pairs[i] { }
      var ks := set i | 0 <= i < |pairs| :: pairs[i].0;
      var kinit := set i | 0 <= i < |init| :: init[i].0;
      assert ks == kinit + {pairs[|pairs| - 1].0};
    }
  }
}
