/** `parseUrlArgs` (utils/utils.js:20-27): the query string without its first character is
    split at every '&', each segment at '=', and the decoded first field becomes a key whose
    value is the decoded second field. `decodeURIComponent` is a parameter. */
module UrlArgs {

  /** Position of the first `c` in `s`. */
  function FirstIndex(s: string, c: char): (i: nat)
    requires c in s
    ensures i < |s| && s[i] == c && c !in s[..i]
  {
    if s[0] == c then 0
    else
      assert c in s[1..];
      var j := FirstIndex(s[1..], c);
      assert s[1..][..j] == s[1..j + 1];
      j + 1
  }

  /** `s.split(sep)` for a one-character separator: the maximal separator-free pieces, in
      order; an empty string gives one empty piece. */
  function Split(s: string, sep: char): (parts: seq<string>)
    ensures |parts| >= 1
    ensures forall i :: 0 <= i < |parts| ==> sep !in parts[i]
    decreases |s|
  {
    if sep !in s then [s]
    else
      var i := FirstIndex(s, sep);
      [s[..i]] + Split(s[i + 1..], sep)
  }

  /** `parts.join(sep)`. */
  function Join(parts: seq<string>, sep: char): string
    requires |parts| >= 1
  {
    if |parts| == 1 then parts[0] else parts[0] + [sep] + Join(parts[1..], sep)
  }

  /** Splitting loses nothing: joining the pieces gives the string back, and there is one
      piece more than there are separators. */
  lemma {:induction false} SplitJoin(s: string, sep: char)
    ensures Join(Split(s, sep), sep) == s
    ensures |Split(s, sep)| == multiset(s)[sep] + 1
    decreases |s|
  {
    if sep in s {
      var i := FirstIndex(s, sep);
      var rest := s[i + 1..];
      SplitJoin(rest, sep);
      var parts := Split(s, sep);
      assert parts == [s[..i]] + Split(rest, sep);
      assert parts[1..] == Split(rest, sep);
      assert Join(parts, sep) == s[..i] + [sep] + Join(Split(rest, sep), sep);
      assert s == s[..i] + [sep] + rest;
      assert multiset(s) == multiset(s[..i]) + multiset([sep]) + multiset(rest);
      assert multiset(s[..i])[sep] == 0;
    } else {
      assert multiset(s)[sep] == 0;
    }
  }

  /** Splitting undoes joining separator-free pieces. */
  lemma {:induction false} JoinSplit(parts: seq<string>, sep: char)
    requires |parts| >= 1
    requires forall i :: 0 <= i < |parts| ==> sep !in parts[i]
    ensures Split(Join(parts, sep), sep) == parts
    decreases |parts|
  {
    if |parts| > 1 {
      var s := Join(parts, sep);
      JoinSplit(parts[1..], sep);
      assert s == parts[0] + [sep] + Join(parts[1..], sep);
      assert s[|parts[0]|] == sep;
      assert s[..|parts[0]|] == parts[0];
      var i := FirstIndex(s, sep);
      assert i == |parts[0]|;
      assert s[..i] == parts[0];
      assert s[i + 1..] == Join(parts[1..], sep);
    }
  }

  /** `location.search.slice(1)`: drops the leading '?' (or whatever comes first). */
  function SearchBody(search: string): string {
    if |search| == 0 then "" else search[1..]
  }

  /** The text before the first '=' of a segment (`pair[0]`). */
  function KeyText(segment: string): string {
    Split(segment, '=')[0]
  }

  /** The text between the first and the second '=' (`pair[1]`); a segment without '='
      has none, and `decodeURIComponent(undefined)` then decodes the string "undefined". */
  function ValueText(segment: string): string {
    var fields := Split(segment, '=');
    if |fields| >= 2 then fields[1] else "undefined"
  }

  /** The first piece of a split is the longest separator-free prefix. */
  lemma FirstPiece(s: string, sep: char)
    ensures var v := Split(s, sep)[0];
            && |v| <= |s| && v == s[..|v|]
            && (|v| == |s| || s[|v|] == sep)
  {
    var parts := Split(s, sep);
    SplitJoin(s, sep);
    if |parts| > 1 {
      assert s == parts[0] + [sep] + Join(parts[1..], sep);
      assert s[..|parts[0]|] == parts[0];
    } else {
      assert s == parts[0];
    }
  }

  /** Where key and value come from inside a segment: the key runs up to the first '=',
      and the value is what follows it up to the next '=' or the end. */
  lemma SegmentFields(segment: string)
    ensures '=' !in KeyText(segment) && '=' !in ValueText(segment)
    ensures '=' !in segment ==> KeyText(segment) == segment && ValueText(segment) == "undefined"
    ensures '=' in segment ==>
              var i := FirstIndex(segment, '=');
              var rest := segment[i + 1..];
              var v := ValueText(segment);
              && KeyText(segment) == segment[..i]
              && |v| <= |rest| && v == rest[..|v|]
              && (|v| == |rest| || rest[|v|] == '=')
  {
    if '=' in segment {
      var i := FirstIndex(segment, '=');
      var rest := segment[i + 1..];
      assert Split(segment, '=') == [segment[..i]] + Split(rest, '=');
      assert ValueText(segment) == Split(rest, '=')[0];
      FirstPiece(rest, '=');
    } else {
      assert Split(segment, '=') == [segment];
    }
  }

  /** The assignments of the segments, made in order (`forEach`): later ones overwrite. */
  function Params(segments: seq<string>, decode: string -> string): map<string, string> {
    if |segments| == 0 then map[]
    else
      var last := segments[|segments| - 1];
      Params(segments[..|segments| - 1], decode)[decode(KeyText(last)) := decode(ValueText(last))]
  }

  /** `parseUrlArgs(location)` with `location.search == search`. */
  function ParseUrlArgs(search: string, decode: string -> string): map<string, string> {
    Params(Split(SearchBody(search), '&'), decode)
  }

  /** Each segment contributes exactly its decoded key, and nothing else becomes a key. */
  lemma {:induction false} ParamsKeys(segments: seq<string>, decode: string -> string)
    ensures Params(segments, decode).Keys ==
              set i | 0 <= i < |segments| :: decode(KeyText(segments[i]))
    decreases |segments|
  {
    if |segments| > 0 {
      var init := segments[..|segments| - 1];
      ParamsKeys(init, decode);
      assert forall i :: 0 <= i < |init| ==> init[i] == segments[i];
    }
  }

  /** Last occurrence wins: a key's value comes from the last segment carrying that key. */
  lemma {:induction false} ParamsLastWins(segments: seq<string>, decode: string -> string, i: nat)
    requires i < |segments|
    requires forall j :: i < j < |segments| ==>
               decode(KeyText(segments[j])) != decode(KeyText(segments[i]))
    ensures decode(KeyText(segments[i])) in Params(segments, decode)
    ensures Params(segments, decode)[decode(KeyText(segments[i]))] == decode(ValueText(segments[i]))
    decreases |segments|
  {
    if i < |segments| - 1 {
      var init := segments[..|segments| - 1];
      assert init[i] == segments[i];
      ParamsLastWins(init, decode, i);
    }
  }

  /** An empty query, or a lone '?', still yields the single key "". */
  lemma ParseEmptySearch(decode: string -> string)
    ensures ParseUrlArgs("", decode) == map[decode("") := decode("undefined")]
    ensures ParseUrlArgs("?", decode) == map[decode("") := decode("undefined")]
  {
    assert Split("", '&') == [""];
    assert Split("", '=') == [""];
    assert SearchBody("?") == "";
  }

  /** Whatever the first character of the query is, it is dropped unread. */
  lemma ParseIgnoresFirstChar(c: char, s: string, decode: string -> string)
    ensures ParseUrlArgs([c] + s, decode) == ParseUrlArgs("?" + s, decode)
  {
    assert SearchBody([c] + s) == s;
    assert SearchBody("?" + s) == s;
  }

  /** "shaderlang=wgsl" is one '&'-segment with key "shaderlang" and value "wgsl". */
  lemma ShaderLangSegment()
    ensures Split(SearchBody("?shaderlang=wgsl"), '&') == ["shaderlang=wgsl"]
    ensures KeyText("shaderlang=wgsl") == "shaderlang" && ValueText("shaderlang=wgsl") == "wgsl"
  {
    var body := "shaderlang=wgsl";
    assert SearchBody("?shaderlang=wgsl") == body;
    assert '&' !in body;
    assert Join(["shaderlang", "wgsl"], '=') == body;
    JoinSplit(["shaderlang", "wgsl"], '=');
  }

  /** The query "?shaderlang=wgsl" maps the key "shaderlang" to "wgsl" when decoding leaves
      those plain words as they are. */
  lemma ParseShaderLang(decode: string -> string)
    requires decode("shaderlang") == "shaderlang" && decode("wgsl") == "wgsl"
    ensures ParseUrlArgs("?shaderlang=wgsl", decode) == map["shaderlang" := "wgsl"]
  {
    ShaderLangSegment();
    var segs := ["shaderlang=wgsl"];
    assert ParseUrlArgs("?shaderlang=wgsl", decode) == Params(segs, decode);
    assert segs[..0] == [];
    var k := decode(KeyText(segs[0]));
    var v := decode(ValueText(segs[0]));
    assert k == "shaderlang" && v == "wgsl";
    assert Params(segs, decode) == map[][k := v];
  }
}
