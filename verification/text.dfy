/** The two string helpers the script relies on: `CHARINDEX` (sessionize.py:36-39) and
    Python's `str.split(sep)` with an explicit one-character separator. */
module Text {

  import opened Wrappers

  /** `CHARINDEX(c, s)`: the first index holding `c`, or `None` when the loop falls through. */
  function CharIndex(c: char, s: string): (r: Option<nat>)
    ensures r.None? <==> c !in s
    ensures r.Some? ==> r.value < |s| && s[r.value] == c && c !in s[..r.value]
  {
    CharIndexFrom(c, s, 0)
  }

  /** The loop of `CHARINDEX` from position `i` on, all earlier positions having missed. */
  function CharIndexFrom(c: char, s: string, i: nat): (r: Option<nat>)
    requires i <= |s| && c !in s[..i]
    ensures r.None? <==> c !in s
    ensures r.Some? ==> i <= r.value < |s| && s[r.value] == c && c !in s[..r.value]
    decreases |s| - i
  {
    if i == |s| then
      assert s[..i] == s;
      None
    else if s[i] == c then
      Some(i)
    else
      assert s[..i + 1] == s[..i] + [s[i]];
      CharIndexFrom(c, s, i + 1)
  }

  /** Python's `s.split(sep)`: cuts at every occurrence and keeps empty fields. */
  function Split(s: string, sep: char): (parts: seq<string>)
    ensures |parts| >= 1
    ensures |parts| >= 2 <==> sep in s
    ensures forall i :: 0 <= i < |parts| ==> sep !in parts[i]
    ensures |parts[0]| <= |s| && parts[0] == s[..|parts[0]|]
    ensures |parts[0]| < |s| ==> s[|parts[0]|] == sep
    decreases |s|
  {
    match CharIndex(sep, s)
    case None => [s]
    case Some(i) => [s[..i]] + Split(s[i + 1..], sep)
  }

  /** Python's `sep.join(parts)`, the inverse of `Split`. */
  function Join(parts: seq<string>, sep: char): string
    requires |parts| >= 1
    decreases |parts|
  {
    if |parts| == 1 then parts[0] else parts[0] + [sep] + Join(parts[1..], sep)
  }

  lemma {:induction false} JoinSplit(s: string, sep: char)
    ensures Join(Split(s, sep), sep) == s
    decreases |s|
  {
    match CharIndex(sep, s)
    case None =>
    case Some(i) =>
      JoinSplit(s[i + 1..], sep);
      assert s == s[..i] + [sep] + s[i + 1..];
  }

  lemma {:induction false} SplitJoin(parts: seq<string>, sep: char)
    requires |parts| >= 1
    requires forall i :: 0 <= i < |parts| ==> sep !in parts[i]
    ensures Split(Join(parts, sep), sep) == parts
    decreases |parts|
  {
    var s := Join(parts, sep);
    if |parts| == 1 {
      assert CharIndex(sep, s).None?;
    } else {
      var p := parts[0];
      var rest := Join(parts[1..], sep);
      assert s == p + [sep] + rest;
      var r := CharIndex(sep, s);
      assert s[|p|] == sep;
      assert r.Some?;
      var i := r.value;
      assert i == |p|;
      assert s[..i] == p && s[i + 1..] == rest;
      SplitJoin(parts[1..], sep);
      assert parts == [p] + parts[1..];
    }
  }
}
