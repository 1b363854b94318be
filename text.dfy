/**
 * The JavaScript string operations the components rely on: the white-space class shared by
 * `\s` and `String.prototype.trim`, `trim` itself, the UTF-16 `length`, `includes`, and
 * `replace` with a string pattern (which rewrites the FIRST occurrence only).
 */
module Text {
  import opened Wrappers

  /** A character matched by `\s` in a JavaScript regular expression; `trim` strips the same set. */
  predicate IsSpace(c: char) {
    c == '\t' || c == '\n' || c == '\U{B}' || c == '\U{C}' || c == '\r' || c == ' '
    || c == '\U{A0}' || c == '\U{1680}' || ('\U{2000}' <= c <= '\U{200A}')
    || c == '\U{2028}' || c == '\U{2029}' || c == '\U{202F}' || c == '\U{205F}'
    || c == '\U{3000}' || c == '\U{FEFF}'
  }

  /** Every character of `s` is white space; the empty string is blank. */
  predicate Blank(s: string) {
    forall k :: 0 <= k < |s| ==> IsSpace(s[k])
  }

  /** No character of `s` is white space. */
  predicate NoSpace(s: string) {
    forall k :: 0 <= k < |s| ==> !IsSpace(s[k])
  }

  /** `s` without its leading white space. */
  function TrimStart(s: string): (r: string)
    ensures |r| <= |s| && r == s[|s| - |r|..]
    ensures Blank(s[..|s| - |r|])
    ensures |r| > 0 ==> !IsSpace(r[0])
    ensures Blank(r) <==> Blank(s)
  {
    if |s| > 0 && IsSpace(s[0]) then TrimStart(s[1..]) else s
  }

  /** `s` without its trailing white space. */
  function TrimEnd(s: string): (r: string)
    ensures |r| <= |s| && r == s[..|r|]
    ensures Blank(s[|r|..])
    ensures |r| > 0 ==> !IsSpace(r[|r| - 1])
    ensures r == [] <==> Blank(s)
  {
    if |s| > 0 && IsSpace(s[|s| - 1]) then TrimEnd(s[..|s| - 1]) else s
  }

  /** `String.prototype.trim`: the validators test `!x.trim()`, that is, whether this is empty. */
  function Trim(s: string): (r: string)
    ensures r == [] <==> Blank(s)
  {
    TrimEnd(TrimStart(s))
  }

  /** The `length` of a JavaScript string: a character outside the Basic Multilingual Plane is two UTF-16 code units. */
  function Utf16Length(s: string): (n: nat)
    ensures |s| <= n <= 2 * |s|
    ensures (forall k :: 0 <= k < |s| ==> s[k] as int <= 0xFFFF) ==> n == |s|
  {
    if s == [] then 0 else (if s[0] as int > 0xFFFF then 2 else 1) + Utf16Length(s[1..])
  }

  /** A single character is one code unit inside the Basic Multilingual Plane and two outside it. */
  lemma Utf16Char(c: char)
    ensures Utf16Length([c]) == if c as int > 0xFFFF then 2 else 1
  {
    assert [c][1..] == [];
  }

  /** The UTF-16 length of a concatenation is the sum of the lengths, so the two facts fix it on every text. */
  lemma {:induction false} Utf16Append(a: string, b: string)
    ensures Utf16Length(a + b) == Utf16Length(a) + Utf16Length(b)
    decreases |a|
  {
    if a == [] {
      assert a + b == b;
    } else {
      assert (a + b)[1..] == a[1..] + b;
      Utf16Append(a[1..], b);
    }
  }

  /** `p` occurs in `s` starting at index `i`. */
  predicate OccursAt(s: string, p: string, i: int) {
    0 <= i && i + |p| <= |s| && s[i..i + |p|] == p
  }

  /** `s.includes(p)`. */
  predicate Contains(s: string, p: string) {
    exists i :: 0 <= i <= |s| && OccursAt(s, p, i)
  }

  /** `i` is the leftmost occurrence of `p` in `s`. */
  predicate FirstOccurrence(s: string, p: string, i: int) {
    OccursAt(s, p, i) && forall j :: 0 <= j < i ==> !OccursAt(s, p, j)
  }

  /** A one-character pattern occurs exactly where that character is. */
  lemma CharOccursAt(s: string, c: char, i: int)
    requires 0 <= i < |s|
    ensures OccursAt(s, [c], i) <==> s[i] == c
  {
    assert s[i..i + 1] == [s[i]];
  }

  lemma OccursAtTail(s: string, p: string, j: int)
    requires |s| > 0 && 0 <= j
    ensures OccursAt(s, p, j + 1) <==> OccursAt(s[1..], p, j)
  {
    if j + 1 + |p| <= |s| {
      assert s[j + 1..j + 1 + |p|] == s[1..][j..j + |p|];
    }
  }

  /** `s.indexOf(p)`: the leftmost occurrence, or None for -1. */
  function IndexOf(s: string, p: string): (r: Option<nat>)
    ensures r.Some? ==> FirstOccurrence(s, p, r.value)
    ensures r.None? ==> !Contains(s, p)
    decreases |s|
  {
    if |p| <= |s| && s[..|p|] == p then Some(0)
    else if |s| == 0 then None
    else
      var tail := IndexOf(s[1..], p);
      if tail.None? then
        assert forall j :: 0 <= j <= |s| ==> !OccursAt(s, p, j) by {
          forall j | 0 <= j <= |s| ensures !OccursAt(s, p, j) {
            if j > 0 { OccursAtTail(s, p, j - 1); }
          }
        }
        None
      else
        assert FirstOccurrence(s, p, tail.value + 1) by {
          OccursAtTail(s, p, tail.value);
          forall j | 0 <= j < tail.value + 1 ensures !OccursAt(s, p, j) {
            if j > 0 { OccursAtTail(s, p, j - 1); }
          }
        }
        Some(tail.value + 1)
  }

  /** Two leftmost occurrences are the same occurrence. */
  lemma FirstOccurrenceUnique(s: string, p: string, i: int, j: int)
    requires FirstOccurrence(s, p, i) && FirstOccurrence(s, p, j)
    ensures i == j
  {
  }

  /**
   * `s.replace(p, r)` with a string pattern: only the leftmost occurrence of `p` is replaced,
   * and `s` is returned unchanged when `p` does not occur.
   */
  function ReplaceFirst(s: string, p: string, r: string): (t: string)
    ensures !Contains(s, p) ==> t == s
    ensures forall i :: FirstOccurrence(s, p, i) ==> t == s[..i] + r + s[i + |p|..]
    ensures |s| > 0 && |r| > 0 ==> |t| > 0
  {
    match IndexOf(s, p)
    case None => s
    case Some(i) =>
      assert forall k :: FirstOccurrence(s, p, k) ==> k == i by {
        forall k | FirstOccurrence(s, p, k) ensures k == i { FirstOccurrenceUnique(s, p, k, i); }
      }
      s[..i] + r + s[i + |p|..]
  }

  /**
   * `toUpperCase` of a one-character string: ASCII and Latin-1 letters are mapped as JavaScript maps
   * them (including 'ß' to "SS", 'ÿ' to 'Ÿ' and 'µ' to Greek capital mu); every other character is kept.
   */
  function UpperCase(c: char): (r: string)
    ensures 1 <= |r| <= 2
    ensures 'a' <= c <= 'z' ==> r == [(c as int - 32) as char]
    ensures 'A' <= c <= 'Z' || '0' <= c <= '9' ==> r == [c]
    ensures '\U{E0}' <= c <= '\U{FE}' && c != '\U{F7}' ==> r == [(c as int - 32) as char]
    ensures c == '\U{FF}' ==> r == ['\U{178}']
    ensures c == '\U{B5}' ==> r == ['\U{39C}']
    ensures c == '\U{DF}' ==> r == "SS"
    ensures (!('a' <= c <= 'z') && !('\U{E0}' <= c <= '\U{FE}' && c != '\U{F7}')
             && c != '\U{FF}' && c != '\U{B5}' && c != '\U{DF}') ==> r == [c]
  {
    if 'a' <= c <= 'z' then [(c as int - 32) as char]
    else if '\U{E0}' <= c <= '\U{FE}' && c != '\U{F7}' then [(c as int - 32) as char]
    else if c == '\U{FF}' then ['\U{178}']
    else if c == '\U{B5}' then ['\U{39C}']
    else if c == '\U{DF}' then ['S', 'S']
    else [c]
  }
}
