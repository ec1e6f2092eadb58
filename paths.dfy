/**
 * The two pieces of `pathlib` and `str` behaviour that both scripts use to
 * classify a file: `Path.suffix` and `str.lower()`.
 */
module Paths {

  /** `s.rfind('.')`: the index of the last '.' in `s`, or -1 if there is none. */
  function LastDot(s: string): (r: int)
    ensures -1 <= r < |s|
    ensures r >= 0 ==> s[r] == '.'
    ensures forall j :: r < j < |s| ==> s[j] != '.'
  {
    if |s| == 0 then -1
    else if s[|s| - 1] == '.' then |s| - 1
    else LastDot(s[..|s| - 1])
  }

  /**
   * `Path.suffix` of a file name: the text from the last '.', unless that
   * dot is the first or the last character, in which case it is empty.
   * So `.jpg` has no suffix and `.hidden.jpg` has suffix `.jpg`.
   */
  function Suffix(name: string): (r: string)
    ensures r == "" <==>
      (|name| > 0 && name[|name| - 1] == '.') || (forall j :: 0 < j < |name| ==> name[j] != '.')
    ensures r != "" ==>
      && 2 <= |r| < |name|
      && r == name[|name| - |r|..]
      && r[0] == '.'
      && (forall j :: 0 < j < |r| ==> r[j] != '.')
  {
    var i := LastDot(name);
    if 0 < i < |name| - 1 then name[i..] else ""
  }

  /** The suffix starts at the last dot, when that dot is neither first nor last. */
  lemma SuffixAt(name: string, i: nat)
    requires 0 < i < |name| - 1 && name[i] == '.'
    requires forall j :: i < j < |name| ==> name[j] != '.'
    ensures Suffix(name) == name[i..]
  {
    assert LastDot(name) == i;
  }

  /** `str.lower()` on one character, for the ASCII letters. */
  function LowerChar(c: char): char
  {
    if 'A' <= c <= 'Z' then (c as int + 32) as char else c
  }

  /** `str.lower()`, character by character. */
  function Lower(s: string): (r: string)
    ensures |r| == |s|
  {
    seq(|s|, i requires 0 <= i < |s| => LowerChar(s[i]))
  }

  /** A suffix as the allow-lists spell them: a dot, then at least one character, no other dot. */
  ghost predicate IsExtension(e: string)
  {
    && |e| >= 2
    && e[0] == '.'
    && forall j :: 0 < j < |e| ==> e[j] != '.'
  }

  /** `path.suffix.lower() in exts`. */
  predicate HasSuffixIn(name: string, exts: set<string>)
  {
    Lower(Suffix(name)) in exts
  }

  /**
   * The lowercased suffix of `name` is the extension `e` exactly when `name`
   * ends, ignoring case, with `e` and has at least one character before it.
   */
  lemma SuffixMatches(name: string, e: string)
    requires IsExtension(e)
    ensures Lower(Suffix(name)) == e <==> |e| < |name| && Lower(name[|name| - |e|..]) == e
  {
    var k := |name| - |e|;
    if |e| < |name| && Lower(name[k..]) == e {
      var t := name[k..];
      assert t[0] == '.' by { assert LowerChar(t[0]) == e[0]; }
      forall j | k < j < |name| ensures name[j] != '.' {
        assert LowerChar(t[j - k]) == e[j - k];
      }
      assert LastDot(name) == k;
    }
  }

  /** `HasSuffixIn` as "ends with one of the extensions, ignoring case, after a non-empty stem". */
  lemma HasSuffixInIff(name: string, exts: set<string>)
    requires forall e :: e in exts ==> IsExtension(e)
    ensures HasSuffixIn(name, exts) <==>
      exists e :: e in exts && |e| < |name| && Lower(name[|name| - |e|..]) == e
  {
    if HasSuffixIn(name, exts) {
      var e := Lower(Suffix(name));
      SuffixMatches(name, e);
    }
    if e :| e in exts && |e| < |name| && Lower(name[|name| - |e|..]) == e {
      SuffixMatches(name, e);
    }
  }
}
