/**
  The few Python string operations the setup scripts rely on, restricted to
  ASCII: `str.strip()`, `str.lower()`, `str.upper()`, `sub in s`,
  `str.find`, `str.split(sep)` and `sep.join(parts)`.
*/
module Text {
  import opened Wrappers

  /** The ASCII characters for which Python's `str.isspace()` holds. */
  predicate IsSpace(c: char) {
    c == ' ' || c == '\t' || c == '\n' || c == '\r' || c == '\U{000B}' || c == '\U{000C}'
    || ('\U{001C}' <= c <= '\U{001F}')
  }

  /** `s.strip() == ""` */
  predicate IsBlank(s: string) {
    forall i :: 0 <= i < |s| ==> IsSpace(s[i])
  }

  /** No whitespace at either end: what `strip()` returns. */
  predicate IsStripped(s: string) {
    s == [] || (!IsSpace(s[0]) && !IsSpace(s[|s| - 1]))
  }

  /** How many whitespace characters `s` starts with. */
  function LeadingSpaces(s: string): (n: nat)
    ensures n <= |s| && forall i :: 0 <= i < n ==> IsSpace(s[i])
    ensures n == |s| || !IsSpace(s[n])
  {
    if |s| > 0 && IsSpace(s[0]) then 1 + LeadingSpaces(s[1..]) else 0
  }

  function TrimStart(s: string): (r: string)
    ensures |r| <= |s| && r == s[|s| - |r|..]
    ensures forall i :: 0 <= i < |s| - |r| ==> IsSpace(s[i])
    ensures r == [] || !IsSpace(r[0])
  {
    s[LeadingSpaces(s)..]
  }

  function TrimEnd(s: string): (r: string)
    ensures |r| <= |s| && r == s[..|r|]
    ensures forall i :: |r| <= i < |s| ==> IsSpace(s[i])
    ensures r == [] || !IsSpace(r[|r| - 1])
  {
    if |s| > 0 && IsSpace(s[|s| - 1]) then TrimEnd(s[..|s| - 1]) else s
  }

  /** Python's `s.strip()`: drops whitespace at both ends. */
  function Strip(s: string): (r: string)
    ensures IsStripped(r)
    ensures IsStripped(s) ==> r == s
    ensures r == [] <==> IsBlank(s)
  {
    TrimEnd(TrimStart(s))
  }

  /** Stripping keeps every character that is not whitespace. */
  lemma StripKeeps(s: string, c: char)
    requires !IsSpace(c)
    ensures c in Strip(s) <==> c in s
  {
    TrimStartKeeps(s, c);
    TrimEndKeeps(TrimStart(s), c);
  }

  lemma TrimStartKeeps(s: string, c: char)
    requires !IsSpace(c)
    ensures c in TrimStart(s) <==> c in s
  {
    var n := LeadingSpaces(s);
    var r := s[n..];
    assert c in s ==> c in r by {
      if c in s {
        var j :| 0 <= j < |s| && s[j] == c;
        assert r[j - n] == c;
      }
    }
    assert c in r ==> c in s by {
      if c in r {
        var j :| 0 <= j < |r| && r[j] == c;
        assert s[j + n] == c;
      }
    }
  }

  lemma {:induction false} TrimEndKeeps(s: string, c: char)
    requires !IsSpace(c)
    ensures c in TrimEnd(s) <==> c in s
  {
    if |s| > 0 && IsSpace(s[|s| - 1]) {
      TrimEndKeeps(s[..|s| - 1], c);
      assert s == s[..|s| - 1] + [s[|s| - 1]];
    }
  }

  function LowerChar(c: char): char {
    if 'A' <= c <= 'Z' then (c as int + 32) as char else c
  }

  function UpperChar(c: char): char {
    if 'a' <= c <= 'z' then (c as int - 32) as char else c
  }

  /** Python's `s.lower()` on ASCII letters. */
  function Lower(s: string): (r: string)
    ensures |r| == |s| && forall i :: 0 <= i < |s| ==> r[i] == LowerChar(s[i])
  {
    seq(|s|, i requires 0 <= i < |s| => LowerChar(s[i]))
  }

  /** Python's `s.upper()` on ASCII letters. */
  function Upper(s: string): (r: string)
    ensures |r| == |s| && forall i :: 0 <= i < |s| ==> r[i] == UpperChar(s[i])
  {
    seq(|s|, i requires 0 <= i < |s| => UpperChar(s[i]))
  }

  /** Lower-casing is idempotent, so `Lower(s) == s` says "s has no upper-case letter". */
  lemma LowerIdempotent(s: string)
    ensures Lower(Lower(s)) == Lower(s)
  {
  }

  /** Case folding never turns a space into a non-space or back, so it commutes with stripping. */
  lemma LowerKeepsStripped(s: string)
    requires IsStripped(s)
    ensures IsStripped(Lower(s))
  {
  }

  predicate IsPrefix(p: string, s: string) {
    |p| <= |s| && s[..|p|] == p
  }

  predicate OccursAt(s: string, sub: string, i: int) {
    0 <= i && i + |sub| <= |s| && s[i..i + |sub|] == sub
  }

  /** Starting with `sub` is occurring at position 0. */
  lemma PrefixAtStart(sub: string, s: string)
    ensures IsPrefix(sub, s) <==> OccursAt(s, sub, 0)
  {
    if |sub| <= |s| {
      assert s[..|sub|] == s[0..|sub|];
    }
  }

  /** Python's `s.find(sub)`: the first position where `sub` occurs, `None` standing for -1. */
  function Find(s: string, sub: string): (r: Option<nat>)
    ensures r.None? <==> forall i :: !OccursAt(s, sub, i)
    ensures r.Some? ==> OccursAt(s, sub, r.value) && forall i :: 0 <= i < r.value ==> !OccursAt(s, sub, i)
    decreases |s|
  {
    if IsPrefix(sub, s) then
      assert OccursAt(s, sub, 0);
      Some(0)
    else if |s| == 0 then
      None
    else
      var r := Find(s[1..], sub);
      FindStep(s, sub);
      match r
      case None => None
      case Some(i) => Some(i + 1)
  }

  /** Past the first position, the occurrences in `s` are those in `s[1..]`, one place further on. */
  lemma FindStep(s: string, sub: string)
    requires |s| > 0 && !IsPrefix(sub, s)
    ensures forall i :: OccursAt(s, sub, i) ==> i > 0 && OccursAt(s[1..], sub, i - 1)
    ensures forall i :: OccursAt(s[1..], sub, i) ==> OccursAt(s, sub, i + 1)
  {
    forall i | OccursAt(s, sub, i) ensures i > 0 && OccursAt(s[1..], sub, i - 1) {
      OccursShift(s, sub, i - 1);
    }
    forall i | OccursAt(s[1..], sub, i) ensures OccursAt(s, sub, i + 1) {
      OccursShift(s, sub, i);
    }
  }

  /** An occurrence in `s[1..]` at `i` is one in `s` at `i + 1`, and back. */
  lemma OccursShift(s: string, sub: string, i: int)
    requires |s| > 0
    ensures OccursAt(s[1..], sub, i) <==> 0 <= i && OccursAt(s, sub, i + 1)
  {
    if 0 <= i && i + 1 + |sub| <= |s| {
      assert s[1..][i..i + |sub|] == s[i + 1..i + 1 + |sub|];
    }
  }

  /** Python's `sub in s`. */
  function Contains(s: string, sub: string): (r: bool)
    ensures r <==> exists i :: OccursAt(s, sub, i)
  {
    Find(s, sub).Some?
  }

  /** Python's `s.find(c)` for a single character, `None` standing for -1. */
  function IndexOf(s: string, c: char): (r: Option<nat>)
    ensures r.None? <==> c !in s
    ensures r.Some? ==> r.value < |s| && s[r.value] == c && c !in s[..r.value]
  {
    if |s| == 0 then None
    else if s[0] == c then Some(0)
    else match IndexOf(s[1..], c)
      case None => None
      case Some(i) =>
        assert s[..i + 1] == [s[0]] + s[1..][..i];
        Some(i + 1)
  }

  /** Python's `s.split(sep, 1)` on text that holds `sep`: the part before its first occurrence and the rest. */
  function SplitOnce(s: string, sep: char): (r: (string, string))
    requires sep in s
    ensures r.0 + [sep] + r.1 == s && sep !in r.0
  {
    var i := IndexOf(s, sep).value;
    Rejoin(s, i, sep, s[i + 1..]);
    (s[..i], s[i + 1..])
  }

  /** Python's `s.split(sep)` for a one-character separator: never empty, pieces free of `sep`. */
  function Split(s: string, sep: char): (parts: seq<string>)
    ensures |parts| >= 1
    ensures forall p :: p in parts ==> sep !in p
    decreases |s|
  {
    match IndexOf(s, sep)
    case None => [s]
    case Some(i) => [s[..i]] + Split(s[i + 1..], sep)
  }

  /** Python's `sep.join(parts)`. */
  function Join(parts: seq<string>, sep: char): string {
    if |parts| == 0 then ""
    else if |parts| == 1 then parts[0]
    else parts[0] + [sep] + Join(parts[1..], sep)
  }

  /** The text around its separator at `i`. */
  lemma Rejoin(s: string, i: nat, sep: char, tail: string)
    requires i < |s| && s[i] == sep && tail == s[i + 1..]
    ensures s[..i] + [sep] + tail == s
  {
  }

  /** A character missing from the text is missing from every piece of it. */
  lemma {:induction false} SplitKeepsAbsent(s: string, sep: char, c: char)
    requires c !in s
    ensures forall p :: p in Split(s, sep) ==> c !in p
    decreases |s|
  {
    match IndexOf(s, sep)
    case None =>
    case Some(i) =>
      assert forall x :: x in s[..i] ==> x in s;
      assert forall x :: x in s[i + 1..] ==> x in s;
      SplitKeepsAbsent(s[i + 1..], sep, c);
  }

  /** A text made of the first character and the next `i - 1` before `z` is the first `i` before `z`. */
  lemma ConsPrefix<T>(s: seq<T>, i: nat, x: seq<T>, y: seq<T>, z: seq<T>)
    requires 0 < i <= |s| && x == [s[0]] + y && y == s[1..][..i - 1] + z
    ensures x == s[..i] + z
  {
    assert s[..i] == [s[0]] + s[1..][..i - 1];
    ConcatAssoc([s[0]], s[1..][..i - 1], z);
  }

  /** Putting the first character back in front of two texts that agree on `n` characters. */
  lemma ConsTake<T>(s: seq<T>, y: seq<T>, r: seq<T>, n: nat)
    requires 0 < |s| && r == [s[0]] + y && n <= |y| && n < |s| && y[..n] == s[1..][..n]
    ensures r[..n + 1] == s[..n + 1]
  {
    assert r[..n + 1] == [s[0]] + y[..n];
    assert s[..n + 1] == [s[0]] + s[1..][..n];
  }

  /** Concatenation is associative (a step the solver does not always find on its own). */
  lemma ConcatAssoc<T>(x: seq<T>, y: seq<T>, z: seq<T>)
    ensures (x + y) + z == x + (y + z)
  {
  }
}
