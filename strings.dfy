/**
 * The JavaScript and Node.js string operations the server relies on:
 * `indexOf`/`replace` with a string pattern, `trim`, `toLowerCase` and
 * `path.extname`.
 */
module Strings {
  import opened Base

  predicate MatchesAt(s: string, p: string, i: nat) {
    i + |p| <= |s| && s[i..i + |p|] == p
  }

  /** `s.indexOf(p, from)`: the first index at or after `from` where p occurs. */
  function IndexOf(s: string, p: string, from: nat): (r: Option<nat>)
    decreases |s| - from
    ensures r.Some? ==> from <= r.value && MatchesAt(s, p, r.value)
    ensures r.Some? ==> forall j :: from <= j < r.value ==> !MatchesAt(s, p, j)
    ensures r.None? ==> forall j :: from <= j ==> !MatchesAt(s, p, j)
  {
    if from + |p| > |s| then None
    else if MatchesAt(s, p, from) then Some(from)
    else IndexOf(s, p, from + 1)
  }

  /**
   * `s.replace(p, rep)` with a string pattern: only the first occurrence is
   * replaced, and a string without p is returned as it is.
   */
  function ReplaceFirst(s: string, p: string, rep: string): (r: string)
  {
    match IndexOf(s, p, 0)
    case None => s
    case Some(i) => s[..i] + rep + s[i + |p|..]
  }

  /** The characters `String.prototype.trim` removes, restricted to ASCII. */
  predicate IsSpace(c: char) {
    c == ' ' || c == '\t' || c == '\n' || c == '\r' || c == 11 as char || c == 12 as char
  }

  /** Neither end is white space. */
  predicate Trimmed(s: string) {
    s == [] || (!IsSpace(s[0]) && !IsSpace(s[|s| - 1]))
  }

  function TrimStart(s: string): (r: string)
    ensures |r| <= |s| && r == s[|s| - |r|..]
    ensures r == [] || !IsSpace(r[0])
    ensures forall k :: 0 <= k < |s| - |r| ==> IsSpace(s[k])
  {
    if s != [] && IsSpace(s[0]) then TrimStart(s[1..]) else s
  }

  function TrimEnd(s: string): (r: string)
    ensures |r| <= |s| && r == s[..|r|]
    ensures r == [] || !IsSpace(r[|r| - 1])
    ensures forall k :: |r| <= k < |s| ==> IsSpace(s[k])
  {
    if s != [] && IsSpace(s[|s| - 1]) then TrimEnd(s[..|s| - 1]) else s
  }

  /** r stands in s at index i, and everything of s before and after it is white space. */
  predicate PaddedAt(s: string, r: string, i: nat) {
    && i + |r| <= |s|
    && (forall k :: 0 <= k < i ==> IsSpace(s[k]))
    && (forall k :: i + |r| <= k < |s| ==> IsSpace(s[k]))
  }

  /** `s.trim()`: the longest slice of s that starts and ends with a non-space. */
  function Trim(s: string): (r: string)
    ensures Trimmed(r) && |r| <= |s|
  {
    TrimEnd(TrimStart(s))
  }

  /** What `trim` keeps stands in s, with nothing but white space before and after it. */
  lemma TrimDropsOnlySpace(s: string)
    ensures exists i :: MatchesAt(s, Trim(s), i) && PaddedAt(s, Trim(s), i)
  {
    var t := TrimStart(s);
    var r := TrimEnd(t);
    var i := |s| - |t|;
    assert r == Trim(s);
    assert t == s[i..] && r == t[..|r|];
    assert s[i..i + |r|] == r;
    forall k | i + |r| <= k < |s|
      ensures IsSpace(s[k])
    {
      assert s[k] == t[k - i];
    }
    assert MatchesAt(s, r, i) && PaddedAt(s, r, i);
  }

  /** Trimming what is already trimmed changes nothing. */
  lemma TrimOfTrimmed(s: string)
    requires Trimmed(s)
    ensures Trim(s) == s
  {
  }

  lemma TrimIdempotent(s: string)
    ensures Trim(Trim(s)) == Trim(s)
  {
    TrimOfTrimmed(Trim(s));
  }

  /** `toLowerCase` on one character, for the ASCII letters. */
  function LowerChar(c: char): char {
    if 'A' <= c <= 'Z' then (c as int + 32) as char else c
  }

  function ToLower(s: string): (r: string)
    ensures |r| == |s|
    ensures forall k :: 0 <= k < |s| ==> r[k] == LowerChar(s[k])
  {
    if s == [] then [] else [LowerChar(s[0])] + ToLower(s[1..])
  }

  /** Lower-casing is idempotent. */
  lemma ToLowerIdempotent(s: string)
    ensures ToLower(ToLower(s)) == ToLower(s)
  {
  }

  /** Lower-casing keeps a trimmed string trimmed. */
  lemma ToLowerKeepsTrimmed(s: string)
    requires Trimmed(s)
    ensures Trimmed(ToLower(s))
  {
  }

  /** One character's share of JavaScript's `.length`: two UTF-16 code units above U+FFFF, one otherwise. */
  function Utf16Units(c: char): nat {
    if c as int > 0xFFFF then 2 else 1
  }

  /**
   * JavaScript's `.length`, which zod's `min` and Mongoose's `minlength`
   * measure: the number of UTF-16 code units, not of characters.
   */
  function Utf16Length(s: string): (n: nat)
    ensures |s| <= n <= 2 * |s|
  {
    if |s| == 0 then 0 else Utf16Length(s[..|s| - 1]) + Utf16Units(s[|s| - 1])
  }

  /** The length of a concatenation is the sum of the lengths. */
  lemma {:induction false} Utf16LengthAppend(s: string, t: string)
    ensures Utf16Length(s + t) == Utf16Length(s) + Utf16Length(t)
    decreases |t|
  {
    if |t| > 0 {
      var t' := t[..|t| - 1];
      assert (s + t)[..|s + t| - 1] == s + t';
      Utf16LengthAppend(s, t');
    } else {
      assert s + t == s;
    }
  }

  /** Text within the Basic Multilingual Plane has as many code units as characters, and only such text does. */
  lemma {:induction false} Utf16LengthOfBmp(s: string)
    ensures Utf16Length(s) == |s| <==> forall i :: 0 <= i < |s| ==> s[i] as int <= 0xFFFF
  {
    if |s| > 0 {
      var s' := s[..|s| - 1];
      Utf16LengthOfBmp(s');
      assert forall i :: 0 <= i < |s'| ==> s'[i] == s[i];
    }
  }

  /** A character above U+FFFF, such as an emoji, counts twice. */
  lemma AstralCountsTwice(c: char)
    requires c as int > 0xFFFF
    ensures Utf16Length([c]) == 2
  {
    assert [c][..0] == [];
  }

  /** The decimal digit of d. */
  function Digit(d: nat): char
    requires d < 10
  {
    ('0' as int + d) as char
  }

  /** `String(n)` for a whole number n: its decimal digits, most significant first. */
  function DecimalText(n: nat): string
    decreases n
  {
    if n < 10 then [Digit(n)] else DecimalText(n / 10) + [Digit(n % 10)]
  }

  /** The last index of c in s. */
  function LastIndexOf(s: string, c: char): (r: Option<nat>)
    ensures r.Some? ==> r.value < |s| && s[r.value] == c
    ensures r.Some? ==> forall k :: r.value < k < |s| ==> s[k] != c
    ensures r.None? ==> forall k :: 0 <= k < |s| ==> s[k] != c
  {
    if s == [] then None
    else if s[|s| - 1] == c then Some(|s| - 1)
    else LastIndexOf(s[..|s| - 1], c)
  }

  function DropTrailingSlashes(s: string): (r: string)
    ensures |r| <= |s| && r == s[..|r|]
    ensures r == [] || r[|r| - 1] != '/'
  {
    if s != [] && s[|s| - 1] == '/' then DropTrailingSlashes(s[..|s| - 1]) else s
  }

  /** The last path component. */
  function BaseName(s: string): (r: string)
    ensures |r| <= |s| && r == s[|s| - |r|..]
    ensures '/' !in r
  {
    match LastIndexOf(s, '/')
    case None => s
    case Some(i) => s[i + 1..]
  }

  /**
   * Node's POSIX `path.extname`: from the last '.' of the last path
   * component to its end; "" when that component has no '.', when its last
   * '.' is its first character (".bashrc"), or when it is "..".
   */
  function Extname(path: string): string {
    var trimmed := DropTrailingSlashes(path);
    var base := BaseName(trimmed);
    match LastIndexOf(base, '.')
    case None => ""
    case Some(d) =>
      if d == 0 || base == ".." then "" else base[d..]
  }

  /**
   * The extension is empty or a '.' followed by no other '.', holds no '/',
   * and ends the path once its trailing slashes are dropped.
   */
  lemma ExtnameShape(path: string)
    ensures var ext := Extname(path);
      ext == [] || (ext[0] == '.' && '.' !in ext[1..] && '/' !in ext)
    ensures var ext, trimmed := Extname(path), DropTrailingSlashes(path);
      |ext| <= |trimmed| && ext == trimmed[|trimmed| - |ext|..]
  {
    var trimmed := DropTrailingSlashes(path);
    var dot := LastIndexOf(BaseName(trimmed), '.');
    if dot.Some? && dot.value != 0 && BaseName(trimmed) != ".." {
      ExtensionOfBase(trimmed, dot.value);
      assert Extname(path) == BaseName(trimmed)[dot.value..];
    } else {
      assert Extname(path) == [];
      assert trimmed[|trimmed|..] == [];
    }
  }

  /** The slice of a path's last component from its last '.' is a suffix of the path with one '.' and no '/'. */
  lemma ExtensionOfBase(path: string, d: nat)
    requires LastIndexOf(BaseName(path), '.') == Some(d)
    ensures var ext := BaseName(path)[d..];
      && ext[0] == '.' && '.' !in ext[1..] && '/' !in ext
      && |ext| <= |path| && ext == path[|path| - |ext|..]
  {
    var base := BaseName(path);
    var ext := base[d..];
    assert ext == path[|path| - |base| + d..];
    forall k | 0 <= k < |ext| - 1
      ensures ext[1..][k] != '.'
    {
      assert ext[1..][k] == base[d + 1 + k];
    }
  }
}
