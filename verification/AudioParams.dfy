/** The key/value parameters of the audio HAL: the parser of
    system/audio_bluetooth_hw/utils.cc and the printing loop of
    system/audio_bluetooth_hw/stream_apis.cc. */
module AudioParams {
  import opened Options

  // ----- splitting at a delimiter -----

  /** The pieces between the delimiters; there is always at least one. */
  function Split(s: string, c: char): (pieces: seq<string>)
    ensures pieces != []
  {
    if s == "" then [""]
    else
      var rest := Split(s[1..], c);
      if s[0] == c then [""] + rest else [[s[0]] + rest[0]] + rest[1..]
  }

  function Join(pieces: seq<string>, c: char): string
    requires pieces != []
  {
    if |pieces| == 1 then pieces[0] else pieces[0] + [c] + Join(pieces[1..], c)
  }

  /** Split is the inverse of Join on pieces without the delimiter. */
  lemma {:induction false} SplitIsExact(s: string, c: char)
    ensures Join(Split(s, c), c) == s
    ensures forall p :: p in Split(s, c) ==> c !in p
  {
    if s != "" {
      SplitIsExact(s[1..], c);
      var rest := Split(s[1..], c);
      if s[0] == c {
        assert Join([""] + rest, c) == [c] + Join(rest, c);
      } else {
        var first := [s[0]] + rest[0];
        assert ([first] + rest[1..])[1..] == rest[1..];
        assert Join([first] + rest[1..], c) == [s[0]] + Join(rest, c);
      }
    }
  }

  lemma {:induction false} SplitFirst(piece: string, c: char, rest: string)
    requires c !in piece
    ensures Split(piece + [c] + rest, c) == [piece] + Split(rest, c)
  {
    var s := piece + [c] + rest;
    if piece == "" {
      assert s[1..] == rest;
    } else {
      assert piece[0] in piece && s[0] == piece[0];
      assert s[1..] == piece[1..] + [c] + rest;
      SplitFirst(piece[1..], c, rest);
      assert [piece[0]] + piece[1..] == piece;
    }
  }

  lemma {:induction false} SplitNone(s: string, c: char)
    requires c !in s
    ensures Split(s, c) == [s]
  {
    if s != "" {
      assert s[0] in s;
      SplitNone(s[1..], c);
      assert [s[0]] + s[1..] == s;
    }
  }

  // ----- parsing -----

  datatype Pair = Pair(key: string, value: string)

  /** What one segment contributes: nothing if it or its key is empty. */
  function ParseSegment(segment: string): Option<Pair> {
    if segment == "" then None
    else
      var kv := Split(segment, '=');
      if kv[0] == "" then None else Some(Pair(kv[0], if |kv| > 1 then kv[1] else ""))
  }

  function Insert(m: map<string, string>, segment: string): map<string, string> {
    match ParseSegment(segment)
    case None => m
    case Some(p) => m[p.key := p.value]
  }

  function ParseFrom(m: map<string, string>, segments: seq<string>): map<string, string>
    decreases |segments|
  {
    if segments == [] then m else ParseFrom(Insert(m, segments[0]), segments[1..])
  }

  function Parse(params: string): map<string, string> {
    ParseFrom(map[], Split(params, ';'))
  }

  method ParseAudioParams(params: string) returns (m: map<string, string>)
    ensures m == Parse(params)
  {
    var segments := Split(params, ';');
    m := map[];
    for i := 0 to |segments|
      invariant ParseFrom(m, segments[i..]) == ParseFrom(map[], segments)
    {
      var segment := segments[i];
      assert segments[i..][1..] == segments[i + 1..];
      if segment == "" {
        continue;
      }
      var kv := Split(segment, '=');
      if kv[0] == "" {
        continue;
      }
      m := m[kv[0] := if |kv| > 1 then kv[1] else ""];
    }
  }

  predicate Clean(s: string) {
    ';' !in s && '=' !in s
  }

  /** A segment is read as the text before its first '=' and the text between that and
      its second, and gives nothing exactly when it begins with '=' or is empty. */
  lemma SegmentText(segment: string)
    ensures ParseSegment(segment).None? <==> segment == "" || segment[0] == '='
    ensures ParseSegment(segment).Some? ==>
      var p := ParseSegment(segment).value;
      && p.key != "" && '=' !in p.key && '=' !in p.value
      && ((segment == p.key && p.value == "")
          || segment == p.key + "=" + p.value
          || p.key + "=" + p.value + "=" <= segment)
  {
    if segment != "" {
      var kv := Split(segment, '=');
      SplitIsExact(segment, '=');
      assert kv[0] in kv && (|kv| > 1 ==> kv[1] in kv);
      if |kv| == 2 {
        assert Join(kv[1..], '=') == kv[1];
      } else if |kv| > 2 {
        assert Join(kv[1..], '=') == kv[1] + "=" + Join(kv[2..], '=') by {
          assert kv[1..][1..] == kv[2..];
        }
        assert segment == kv[0] + "=" + kv[1] + "=" + Join(kv[2..], '=');
      }
    }
  }

  ghost predicate Mentions(segment: string, k: string) {
    ParseSegment(segment).Some? && ParseSegment(segment).value.key == k
  }

  lemma {:induction false} NotMentioned(m: map<string, string>, segments: seq<string>, k: string)
    requires forall s :: s in segments ==> !Mentions(s, k)
    ensures k in ParseFrom(m, segments) <==> k in m
    ensures k in m ==> ParseFrom(m, segments)[k] == m[k]
    decreases |segments|
  {
    if segments != [] {
      assert segments[0] in segments;
      NotMentioned(Insert(m, segments[0]), segments[1..], k);
    }
  }

  /** For any string, a key is in the result exactly when a segment gives it, with the
      value of the last segment that does. */
  lemma {:induction false} LastWins(m: map<string, string>, segments: seq<string>, k: string, i: nat)
    requires i < |segments| && Mentions(segments[i], k)
    requires forall j :: i < j < |segments| ==> !Mentions(segments[j], k)
    ensures k in ParseFrom(m, segments) && ParseFrom(m, segments)[k] == ParseSegment(segments[i]).value.value
    decreases |segments|
  {
    if i == 0 {
      NotMentioned(Insert(m, segments[0]), segments[1..], k);
    } else {
      LastWins(Insert(m, segments[0]), segments[1..], k, i - 1);
    }
  }

  /** Splitting undoes joining, for pieces that do not hold the delimiter. */
  lemma {:induction false} SplitOfJoin(pieces: seq<string>, c: char)
    requires pieces != [] && forall p :: p in pieces ==> c !in p
    ensures Split(Join(pieces, c), c) == pieces
  {
    assert pieces[0] in pieces;
    if |pieces| == 1 {
      SplitNone(pieces[0], c);
    } else {
      assert forall p :: p in pieces[1..] ==> p in pieces;
      SplitOfJoin(pieces[1..], c);
      SplitFirst(pieces[0], c, Join(pieces[1..], c));
    }
  }

  /** What a parameter string means: whatever pieces it is made of by putting a ';' between
      them, a key is in the result exactly when a piece gives it, with the value of the last
      piece that does. */
  lemma ParseMeaning(pieces: seq<string>, k: string)
    requires pieces != [] && forall p :: p in pieces ==> ';' !in p
    ensures var m := Parse(Join(pieces, ';'));
      && (k in m <==> exists i :: 0 <= i < |pieces| && Mentions(pieces[i], k))
      && (forall i :: 0 <= i < |pieces| && Mentions(pieces[i], k)
                      && (forall j :: i < j < |pieces| ==> !Mentions(pieces[j], k)) ==>
            k in m && m[k] == ParseSegment(pieces[i]).value.value)
  {
    SplitOfJoin(pieces, ';');
    if i :| 0 <= i < |pieces| && Mentions(pieces[i], k) {
      var last := LastMention(pieces, k, i);
      LastWins(map[], pieces, k, last);
    } else {
      NotMentioned(map[], pieces, k);
    }
    forall i | 0 <= i < |pieces| && Mentions(pieces[i], k)
               && (forall j :: i < j < |pieces| ==> !Mentions(pieces[j], k))
      ensures k in ParseFrom(map[], pieces) && ParseFrom(map[], pieces)[k] == ParseSegment(pieces[i]).value.value
    {
      LastWins(map[], pieces, k, i);
    }
  }

  lemma {:induction false} LastMention(pieces: seq<string>, k: string, i: nat) returns (last: nat)
    requires i < |pieces| && Mentions(pieces[i], k)
    ensures last < |pieces| && Mentions(pieces[last], k)
    ensures forall j :: last < j < |pieces| ==> !Mentions(pieces[j], k)
    decreases |pieces| - i
  {
    if j :| i < j < |pieces| && Mentions(pieces[j], k) {
      last := LastMention(pieces, k, j);
    } else {
      last := i;
    }
  }

  /** Whatever is parsed, keys are not empty and neither keys nor values hold a delimiter. */
  ghost predicate CleanMap(m: map<string, string>) {
    forall k :: k in m ==> k != "" && Clean(k) && Clean(m[k])
  }

  lemma {:induction false} CleanFrom(m: map<string, string>, segments: seq<string>)
    requires CleanMap(m) && forall s :: s in segments ==> ';' !in s
    ensures CleanMap(ParseFrom(m, segments))
    decreases |segments|
  {
    if segments != [] {
      assert segments[0] in segments;
      SegmentText(segments[0]);
      if ParseSegment(segments[0]).Some? {
        SegmentParts(segments[0]);
      }
      CleanFrom(Insert(m, segments[0]), segments[1..]);
    }
  }

  lemma SegmentParts(segment: string)
    requires ';' !in segment && ParseSegment(segment).Some?
    ensures ';' !in ParseSegment(segment).value.key && ';' !in ParseSegment(segment).value.value
  {
    SegmentText(segment);
    var p := ParseSegment(segment).value;
    if p.key + "=" + p.value + "=" <= segment {
      assert forall c :: c in p.key + "=" + p.value + "=" ==> c in segment;
    }
    assert forall c :: c in p.key || c in p.value ==> c in p.key + "=" + p.value + "=";
  }

  lemma ParseIsClean(params: string)
    ensures CleanMap(Parse(params))
  {
    SplitIsExact(params, ';');
    CleanFrom(map[], Split(params, ';'));
  }

  // ----- printing -----

  ghost predicate Enumerates(order: seq<string>, m: map<string, string>) {
    && (forall k :: k in order <==> k in m)
    && (forall i, j :: 0 <= i < j < |order| ==> order[i] != order[j])
  }

  /** The "k=v;" pieces of the keys in the order the loop visits them. */
  function Print(m: map<string, string>, order: seq<string>): string
    requires forall k :: k in order ==> k in m
  {
    if order == [] then "" else order[0] + "=" + m[order[0]] + ";" + Print(m, order[1..])
  }

  method PrintParams(m: map<string, string>, order: seq<string>) returns (result: string)
    requires forall k :: k in order ==> k in m
    ensures result == Print(m, order)
  {
    result := "";
    for i := 0 to |order|
      invariant result + Print(m, order[i..]) == Print(m, order)
    {
      var piece := order[i] + "=" + m[order[i]] + ";";
      assert order[i..][1..] == order[i + 1..];
      assert result + (piece + Print(m, order[i + 1..])) == (result + piece) + Print(m, order[i + 1..]);
      result := result + piece;
    }
  }

  lemma PieceParses(k: string, v: string)
    requires k != "" && '=' !in k && '=' !in v
    ensures ParseSegment(k + "=" + v) == Some(Pair(k, v))
  {
    SplitFirst(k, '=', v);
    SplitNone(v, '=');
  }

  lemma {:induction false} PrintParses(m: map<string, string>, order: seq<string>, acc: map<string, string>)
    requires CleanMap(m) && forall k :: k in order ==> k in m
    ensures var r := ParseFrom(acc, Split(Print(m, order), ';'));
      && (forall k :: k in r <==> k in order || k in acc)
      && (forall k :: k in r ==> r[k] == if k in order then m[k] else acc[k])
    decreases |order|
  {
    if order == [] {
      assert Split("", ';') == [""];
      assert ParseFrom(Insert(acc, ""), [""][1..]) == acc;
    } else {
      var k, rest := order[0], order[1..];
      var piece := k + "=" + m[k];
      assert k in order && order == [k] + rest;
      assert forall c :: c in piece ==> c in k || c == '=' || c in m[k];
      assert Print(m, order) == piece + ";" + Print(m, rest);
      SplitFirst(piece, ';', Print(m, rest));
      PieceParses(k, m[k]);
      PrintParses(m, rest, acc[k := m[k]]);
    }
  }

  /** The text printed: one "key=value" piece per key, in the order visited, each with a
      ';' after it. */
  lemma {:induction false} PrintText(m: map<string, string>, order: seq<string>)
    requires forall k :: k in order ==> k in m
    ensures Print(m, order) ==
            Join(seq(|order|, i requires 0 <= i < |order| => order[i] + "=" + m[order[i]]) + [""], ';')
    decreases |order|
  {
    var pieces := seq(|order|, i requires 0 <= i < |order| => order[i] + "=" + m[order[i]]) + [""];
    if order != [] {
      PrintText(m, order[1..]);
      assert pieces[1..] == seq(|order[1..]|, i requires 0 <= i < |order[1..]| =>
                                order[1..][i] + "=" + m[order[1..][i]]) + [""];
    }
  }

  /** Printing a map and parsing the result gives the map back, in whatever order it was
      printed, exactly when its keys are not empty and nothing in it holds a delimiter. */
  lemma RoundTripExactly(m: map<string, string>, order: seq<string>)
    requires Enumerates(order, m)
    ensures Parse(Print(m, order)) == m <==> CleanMap(m)
  {
    if CleanMap(m) {
      PrintParses(m, order, map[]);
    } else {
      ParseIsClean(Print(m, order));
    }
  }
}
