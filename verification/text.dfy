/**
 * The string operations of Python's `str` that the application and
 * `urllib.parse` rely on: `strip`, `find`, `rfind`, `split` and `join`.
 */
module Text {

  /** Python's `str.isspace` for one character. */
  predicate IsSpace(c: char) {
    var n := c as int;
    n == 0x20 || 0x09 <= n <= 0x0D || 0x1C <= n <= 0x1F || n == 0x85 || n == 0xA0
    || n == 0x1680 || 0x2000 <= n <= 0x200A || n == 0x2028 || n == 0x2029
    || n == 0x202F || n == 0x205F || n == 0x3000
  }

  predicate AllSpace(s: string) {
    forall k | 0 <= k < |s| :: IsSpace(s[k])
  }

  /** `s.rstrip()`: the longest prefix of `s` that does not end with whitespace. */
  function TrimEnd(s: string): (r: string)
    ensures |r| <= |s| && r == s[..|r|]
    ensures AllSpace(s[|r|..])
    ensures r == [] || !IsSpace(r[|r| - 1])
  {
    if s != [] && IsSpace(s[|s| - 1]) then TrimEnd(s[..|s| - 1]) else s
  }

  /**
   * `s.strip()`: `s` without its leading and trailing whitespace; empty
   * exactly when `s` is all whitespace.
   */
  function Strip(s: string): (r: string)
    ensures |r| <= |s|
    ensures r == [] <==> AllSpace(s)
    ensures r != [] ==> !IsSpace(r[0]) && !IsSpace(r[|r| - 1])
    decreases |s|
  {
    if s != [] && IsSpace(s[0]) then
      assert AllSpace(s) <==> AllSpace(s[1..]) by {
        if AllSpace(s[1..]) {
          forall k | 0 <= k < |s| ensures IsSpace(s[k]) {
            if k > 0 { assert s[k] == s[1..][k - 1]; }
          }
        }
      }
      Strip(s[1..])
    else
      assert s[0..] == s;
      TrimEnd(s)
  }

  /** `r` sits in `s` at offset `i`, with only whitespace before and after it. */
  predicate Framed(s: string, r: string, i: int) {
    0 <= i <= |s| - |r| && r == s[i..i + |r|] && AllSpace(s[..i]) && AllSpace(s[i + |r|..])
  }

  lemma {:induction false} FramedCons(s: string, r: string, i: int)
    requires s != [] && IsSpace(s[0]) && Framed(s[1..], r, i)
    ensures Framed(s, r, i + 1)
  {
    assert r == s[i + 1..i + 1 + |r|];
    assert s[i + 1 + |r|..] == s[1..][i + |r|..];
    forall k | 0 <= k < i + 1
      ensures IsSpace(s[k])
    {
      if k > 0 { assert s[k] == s[1..][..i][k - 1]; }
    }
  }

  /** What `Strip` keeps is an infix of `s` with only whitespace on either side. */
  lemma {:induction false} StripInfix(s: string)
    ensures exists i :: Framed(s, Strip(s), i)
    decreases |s|
  {
    if s != [] && IsSpace(s[0]) {
      StripInfix(s[1..]);
      var i :| Framed(s[1..], Strip(s[1..]), i);
      FramedCons(s, Strip(s), i);
    } else {
      var r := Strip(s);
      assert r == s[0..0 + |r|];
      assert AllSpace(s[..0]);
      assert Framed(s, r, 0);
    }
  }

  /** Index of the first character of `s` that is in `stop`; |s| when there is none. */
  function IndexOfAny(s: string, stop: set<char>): (i: nat)
    ensures i <= |s|
    ensures i < |s| ==> s[i] in stop
    ensures forall k | 0 <= k < i :: s[k] !in stop
  {
    if s == [] then 0
    else if s[0] in stop then 0
    else 1 + IndexOfAny(s[1..], stop)
  }

  /** Python's `s.find(c)`, with |s| standing for -1. */
  function Find(s: string, c: char): (i: nat)
    ensures i <= |s|
    ensures i < |s| ==> s[i] == c
    ensures forall k | 0 <= k < i :: s[k] != c
  {
    IndexOfAny(s, {c})
  }

  /** Python's `s.rfind(c)` for a character that occurs in `s`. */
  function LastIndexOf(s: string, c: char): (i: nat)
    requires c in s
    ensures i < |s| && s[i] == c
    ensures forall k | i < k < |s| :: s[k] != c
  {
    if s[|s| - 1] == c then |s| - 1
    else
      assert c in s[..|s| - 1] by {
        var j :| 0 <= j < |s| && s[j] == c;
        assert s[..|s| - 1][j] == c;
      }
      LastIndexOf(s[..|s| - 1], c)
  }

  /** `sep.join(parts)`. */
  function Join(parts: seq<string>, sep: char): string {
    if parts == [] then ""
    else if |parts| == 1 then parts[0]
    else parts[0] + [sep] + Join(parts[1..], sep)
  }

  /** `s.split(sep)`: the pieces between the separators, which `Join` puts back. */
  function Split(s: string, sep: char): (parts: seq<string>)
    ensures |parts| >= 1
    ensures forall p | p in parts :: sep !in p
    ensures Join(parts, sep) == s
    decreases |s|
  {
    var i := Find(s, sep);
    if i == |s| then [s]
    else
      var rest := Split(s[i + 1..], sep);
      assert s == s[..i] + [sep] + s[i + 1..];
      [s[..i]] + rest
  }

  /** Splitting what `Join` produced gives back the parts, when none holds the separator. */
  lemma {:induction false} SplitJoin(parts: seq<string>, sep: char)
    requires |parts| >= 1
    requires forall p | p in parts :: sep !in p
    ensures Split(Join(parts, sep), sep) == parts
    decreases |parts|
  {
    var s := Join(parts, sep);
    var p0 := parts[0];
    assert sep !in p0;
    if |parts| == 1 {
      assert Find(s, sep) == |s|;
    } else {
      var tail := Join(parts[1..], sep);
      assert s == p0 + [sep] + tail;
      assert Find(s, sep) == |p0| by {
        assert s[|p0|] == sep;
        forall k | 0 <= k < |p0| ensures s[k] != sep {
          assert s[k] == p0[k];
        }
      }
      assert s[|p0| + 1..] == tail;
      assert s[..|p0|] == p0;
      SplitJoin(parts[1..], sep);
    }
  }

  predicate IsAsciiLetter(c: char) {
    'a' <= c <= 'z' || 'A' <= c <= 'Z'
  }

  predicate IsDigit(c: char) {
    '0' <= c <= '9'
  }

  function LowerChar(c: char): char {
    if 'A' <= c <= 'Z' then (c as int + 32) as char else c
  }

  /** `s.lower()` on ASCII letters (the only letters a URL scheme may hold). */
  function Lower(s: string): (r: string)
    ensures |r| == |s|
    ensures forall k | 0 <= k < |s| :: r[k] == LowerChar(s[k])
  {
    if s == [] then [] else [LowerChar(s[0])] + Lower(s[1..])
  }
}
