/** The navigation bar: the profile-image rewriting, the avatar fallback and the session state it keeps. */
module Navbar {
  import opened Wrappers
  import opened Text
  import opened SessionJson
  import opened CredentialStore

  const GoogleHost := "googleusercontent.com"
  const SizeToken := "=s200-c"
  const Http := "http://"
  const Https := "https://"
  const HomeRoute := "/"

  /** A character matched by `\d`: ASCII digits only. */
  predicate IsDigit(c: char) {
    '0' <= c <= '9'
  }

  /** `s[i..e]` is matched by `/=s\d+-c/`: `=s`, one or more digits, `-c`. */
  predicate MatchesAt(s: string, i: int, e: int) {
    0 <= i && i + 5 <= e <= |s| && s[i] == '=' && s[i + 1] == 's'
    && (forall k :: i + 2 <= k < e - 2 ==> IsDigit(s[k]))
    && s[e - 2] == '-' && s[e - 1] == 'c'
  }

  /** The end of the run of digits that starts at `k`. */
  function DigitsEnd(s: string, k: nat): (e: nat)
    requires k <= |s|
    ensures k <= e <= |s|
    ensures forall q :: k <= q < e ==> IsDigit(s[q])
    ensures e < |s| ==> !IsDigit(s[e])
    decreases |s| - k
  {
    if k < |s| && IsDigit(s[k]) then DigitsEnd(s, k + 1) else k
  }

  /** A match starting at `i` can only end two characters after the digit run: the pattern has one match per start. */
  lemma MatchEnd(s: string, i: int, e: int)
    requires MatchesAt(s, i, e)
    ensures DigitsEnd(s, i + 2) == e - 2
  {
  }

  /** The match starting at `i`, if there is one, decided from the digit run. */
  function TokenEndAt(s: string, i: nat): (r: Option<nat>)
    requires i + 2 <= |s|
    ensures r.Some? ==> MatchesAt(s, i, r.value)
    ensures r.None? ==> forall e :: !MatchesAt(s, i, e)
  {
    if s[i] == '=' && s[i + 1] == 's' then
      var d := DigitsEnd(s, i + 2);
      if d > i + 2 && d + 2 <= |s| && s[d] == '-' && s[d + 1] == 'c' then Some(d + 2)
      else
        assert forall e :: !MatchesAt(s, i, e) by {
          forall e | MatchesAt(s, i, e) ensures false { MatchEnd(s, i, e); }
        }
        None
    else None
  }

  /** No match of the pattern starts in `[lo, hi)`. */
  ghost predicate NoMatchBetween(s: string, lo: int, hi: int) {
    forall j, f :: lo <= j < hi ==> !MatchesAt(s, j, f)
  }

  /** `s` holds no match of the pattern at all. */
  ghost predicate NoMatch(s: string) {
    forall j, f :: !MatchesAt(s, j, f)
  }

  /** `s[i..e]` is the match a non-global `replace` rewrites: no match starts further left. */
  ghost predicate Leftmost(s: string, i: int, e: int) {
    MatchesAt(s, i, e) && NoMatchBetween(s, 0, i)
  }

  /** There is at most one leftmost match. */
  lemma LeftmostUnique(s: string, i: int, e: int, i': int, e': int)
    requires Leftmost(s, i, e) && Leftmost(s, i', e')
    ensures i == i' && e == e'
  {
    assert !(i < i') && !(i' < i);
    MatchEnd(s, i, e);
    MatchEnd(s, i, e');
  }

  /** The leftmost match of the pattern that starts at `from` or later, as a start and an end. */
  function FirstToken(s: string, from: nat): (r: Option<(nat, nat)>)
    requires from <= |s|
    ensures r.Some? ==> from <= r.value.0 && MatchesAt(s, r.value.0, r.value.1)
    ensures r.Some? ==> NoMatchBetween(s, from, r.value.0)
    ensures r.None? ==> NoMatchBetween(s, from, |s| + 1)
    decreases |s| - from
  {
    if from + 2 > |s| then None
    else
      match TokenEndAt(s, from)
      case Some(e) => Some((from, e))
      case None => FirstToken(s, from + 1)
  }

  /** Every match starts at most at `|s|`, so `NoMatchBetween(s, 0, |s| + 1)` is `NoMatch(s)`. */
  lemma NoMatchAll(s: string)
    requires NoMatchBetween(s, 0, |s| + 1)
    ensures NoMatch(s)
  {
    forall j, f ensures !MatchesAt(s, j, f) {
      if j > |s| { assert !MatchesAt(s, j, f); }
    }
  }

  /** `s.replace(/=s\d+-c/, '=s200-c')`: the leftmost match alone is rewritten; no match, no change. */
  function ReplaceSizeToken(s: string): (t: string)
    ensures NoMatch(s) ==> t == s
    ensures forall i, e :: Leftmost(s, i, e) ==> t == s[..i] + SizeToken + s[e..]
    ensures |t| > 0 <==> |s| > 0
  {
    match FirstToken(s, 0)
    case None => NoMatchAll(s); s
    case Some((i, e)) =>
      assert forall i', e' :: Leftmost(s, i', e') ==> i' == i && e' == e by {
        forall i', e' | Leftmost(s, i', e') ensures i' == i && e' == e {
          LeftmostUnique(s, i, e, i', e');
        }
      }
      s[..i] + SizeToken + s[e..]
  }

  /** Inside a match, after its `=`, there are only `s`, digits, `-` and `c`. */
  lemma MatchInterior(s: string, i: int, e: int, q: int)
    requires MatchesAt(s, i, e) && i < q < e
    ensures s[q] == 's' || IsDigit(s[q]) || s[q] == '-' || s[q] == 'c'
  {
  }

  /**
   * A match in `t` that starts before an `=` at `i` ends at or before `i`: the `=` is neither `s`,
   * a digit, `-` nor `c`. So when `t` agrees with `s` before `i`, it is a match in `s` as well.
   */
  lemma MatchBefore(s: string, t: string, i: int, j: int, f: int)
    requires 0 <= j < i < |t| && i <= |s| && t[..i] == s[..i] && t[i] == '='
    requires MatchesAt(t, j, f)
    ensures MatchesAt(s, j, f)
  {
    assert f <= i by {
      if f > i { MatchInterior(t, j, f, i); }
    }
    forall k | 0 <= k < f ensures s[k] == t[k] {
      assert s[k] == s[..i][k] && t[k] == t[..i][k];
    }
  }

  /** Rewriting the size token twice is rewriting it once: the leftmost match stays where it was. */
  lemma ReplaceSizeTokenIdempotent(s: string)
    ensures ReplaceSizeToken(ReplaceSizeToken(s)) == ReplaceSizeToken(s)
  {
    if FirstToken(s, 0).Some? {
      var i, e := FirstToken(s, 0).value.0, FirstToken(s, 0).value.1;
      assert Leftmost(s, i, e);
      var t := s[..i] + SizeToken + s[e..];
      assert t[..i] == s[..i];
      assert t[i..i + 7] == SizeToken;
      assert MatchesAt(t, i, i + 7);
      forall j, f | 0 <= j < i ensures !MatchesAt(t, j, f) {
        if MatchesAt(t, j, f) { MatchBefore(s, t, i, j, f); }
      }
      assert Leftmost(t, i, i + 7);
      assert t[..i] + SizeToken + t[i + 7..] == t;
    }
  }

  /**
   * `getProfileImage`: falsy input (null, absent, empty) gives null; a Google-hosted picture has its
   * leftmost size token set to `=s200-c`; then the leftmost `http://` of any URL becomes `https://`.
   */
  function ProfileImage(url: Option<string>): (r: Option<string>)
    ensures r.None? <==> url.None? || url.value == ""
    ensures r.Some? && !Contains(url.value, GoogleHost) ==> r.value == ReplaceFirst(url.value, Http, Https)
    ensures r.Some? && Contains(url.value, GoogleHost) ==>
              r.value == ReplaceFirst(ReplaceSizeToken(url.value), Http, Https)
    ensures r.Some? && !Contains(url.value, GoogleHost) && !Contains(url.value, Http) ==> r == url
  {
    if url.None? || url.value == "" then None
    else
      var u := url.value;
      var sized := if Contains(u, GoogleHost) then ReplaceSizeToken(u) else u;
      Some(ReplaceFirst(sized, Http, Https))
  }

  /**
   * A splice keeps `p` absent: when `p` does not occur in `s` and shares no character with the
   * non-empty text `m` put in place of `s[i..e]`, it does not occur in the result either.
   */
  lemma SpliceAvoids(s: string, i: int, e: int, m: string, p: string)
    requires 0 <= i <= e <= |s| && |m| > 0 && |p| > 0 && !Contains(s, p)
    requires forall x, y :: 0 <= x < |m| && 0 <= y < |p| ==> m[x] != p[y]
    ensures !Contains(s[..i] + m + s[e..], p)
  {
    var t := s[..i] + m + s[e..];
    forall k | 0 <= k <= |t| ensures !OccursAt(t, p, k) {
      if k + |p| <= |t| {
        var w := t[k..k + |p|];
        if k + |p| <= i {
          SpliceWindow(s[..i], m, s[e..], k, |p|);
          assert w == s[k..k + |p|];
          assert !OccursAt(s, p, k);
        } else if k >= i + |m| {
          var k' := k - |m| + (e - i);
          SpliceWindow(s[..i], m, s[e..], k, |p|);
          assert w == s[k'..k' + |p|];
          assert !OccursAt(s, p, k');
        } else {
          // the window covers a character of `m`, which `p` does not have
          var q := if k < i then i else k;
          assert w[q - k] == m[q - i];
          assert w[q - k] != p[q - k];
        }
      }
    }
  }

  /** `=s200-c` and `http://` have no character in common. */
  lemma TokenAvoidsScheme()
    ensures forall x, y :: 0 <= x < |SizeToken| && 0 <= y < |Http| ==> SizeToken[x] != Http[y]
  {
    forall x, y | 0 <= x < |SizeToken| && 0 <= y < |Http| ensures SizeToken[x] != Http[y] {
      assert SizeToken[x] in {'=', 's', '2', '0', '-', 'c'};
      assert Http[y] in {'h', 't', 'p', ':', '/'};
    }
  }

  /** The leftmost size-token match, unfolded: `ReplaceSizeToken(s)` splices `=s200-c` over `s[i..e]`. */
  lemma SizeTokenSplice(s: string) returns (i: nat, e: nat)
    requires FirstToken(s, 0).Some?
    ensures i + 5 <= e <= |s| && s[i] == '='
    ensures forall q :: i < q < e ==> s[q] == 's' || IsDigit(s[q]) || s[q] == '-' || s[q] == 'c'
    ensures ReplaceSizeToken(s) == s[..i] + SizeToken + s[e..]
  {
    i, e := FirstToken(s, 0).value.0, FirstToken(s, 0).value.1;
    forall q | i < q < e ensures s[q] == 's' || IsDigit(s[q]) || s[q] == '-' || s[q] == 'c' {
      MatchInterior(s, i, e, q);
    }
  }

  /** Rewriting the size token cannot create an `http://`: `=s200-c` has no character of it. */
  lemma SizeTokenAddsNoHttp(s: string)
    requires !Contains(s, Http)
    ensures !Contains(ReplaceSizeToken(s), Http)
  {
    if FirstToken(s, 0).Some? {
      var i, e := SizeTokenSplice(s);
      TokenAvoidsScheme();
      SpliceAvoids(s, i, e, SizeToken, Http);
    }
  }

  /**
   * An occurrence of `googleusercontent.com` lies wholly before or wholly after a size token: it
   * holds no `=`, and it starts with a `g`, which no position inside the token holds.
   */
  lemma HostOutsideToken(s: string, i: int, e: int, k: int)
    requires OccursAt(s, GoogleHost, k) && 0 <= i < e <= |s| && s[i] == '='
    requires forall q :: i < q < e ==> s[q] == 's' || IsDigit(s[q]) || s[q] == '-' || s[q] == 'c'
    ensures k + |GoogleHost| <= i || e <= k
  {
    forall q | k <= q < k + |GoogleHost| ensures s[q] == GoogleHost[q - k] {
      assert s[q] == s[k..k + |GoogleHost|][q - k];
    }
    assert forall x :: 0 <= x < |GoogleHost| ==> GoogleHost[x] != '=';
    assert s[k] == 'g';
  }

  /** A window of `a + m + b` that lies within `a` or within `b` is a window of that part. */
  lemma SpliceWindow(a: string, m: string, b: string, x: nat, len: nat)
    requires x + len <= |a| || (|a| + |m| <= x && x + len <= |a| + |m| + |b|)
    ensures x + len <= |a| ==> (a + m + b)[x..x + len] == a[x..x + len]
    ensures |a| + |m| <= x ==> (a + m + b)[x..x + len] == b[x - |a| - |m|..x - |a| - |m| + len]
  {
  }

  /** An occurrence of `p` wholly before `s[i..e]` survives replacing that part by `m`. */
  lemma SpliceKeepsBefore(s: string, i: int, e: int, m: string, p: string, k: int)
    requires 0 <= i <= e <= |s| && OccursAt(s, p, k) && k + |p| <= i
    ensures OccursAt(s[..i] + m + s[e..], p, k)
  {
    SpliceWindow(s[..i], m, s[e..], k, |p|);
    assert s[..i][k..k + |p|] == s[k..k + |p|];
  }

  /** An occurrence of `p` wholly after `s[i..e]` survives replacing that part by `m`, shifted by the change in length. */
  lemma SpliceKeepsAfter(s: string, i: int, e: int, m: string, p: string, k: int)
    requires 0 <= i <= e <= k && OccursAt(s, p, k)
    ensures OccursAt(s[..i] + m + s[e..], p, k - e + i + |m|)
  {
    SpliceWindow(s[..i], m, s[e..], i + |m| + (k - e), |p|);
    assert s[e..][k - e..k - e + |p|] == s[k..k + |p|];
  }

  /** An occurrence of `p` that lies outside `s[i..e]` survives replacing that part by `m`. */
  lemma SpliceKeeps(s: string, i: int, e: int, m: string, p: string, k: int)
    requires 0 <= i <= e <= |s| && OccursAt(s, p, k) && (k + |p| <= i || e <= k)
    ensures Contains(s[..i] + m + s[e..], p)
  {
    if k + |p| <= i {
      SpliceKeepsBefore(s, i, e, m, p, k);
    } else {
      SpliceKeepsAfter(s, i, e, m, p, k);
    }
  }

  /** Rewriting the size token keeps the Google host. */
  lemma SizeTokenKeepsHost(s: string)
    requires Contains(s, GoogleHost)
    ensures Contains(ReplaceSizeToken(s), GoogleHost)
  {
    if FirstToken(s, 0).Some? {
      var i, e := SizeTokenSplice(s);
      var k :| 0 <= k <= |s| && OccursAt(s, GoogleHost, k);
      HostOutsideToken(s, i, e, k);
      SpliceKeeps(s, i, e, SizeToken, GoogleHost, k);
    }
  }

  /** A text that starts with `http://` still does after the size rewrite: a token starts with `=`. */
  lemma SizeTokenKeepsScheme(u: string)
    requires |u| >= |Http| && u[..|Http|] == Http
    ensures var t := ReplaceSizeToken(u); |t| >= |Http| && t[..|Http|] == Http
  {
    if FirstToken(u, 0).Some? {
      var i, e := SizeTokenSplice(u);
      SchemeHasNoEquals(u);
      assert i >= |Http|;
      SpliceKeepsBefore(u, i, e, SizeToken, Http, 0);
    }
  }

  lemma SchemeHasNoEquals(u: string)
    requires |u| >= |Http| && u[..|Http|] == Http
    ensures forall q :: 0 <= q < |Http| ==> u[q] != '='
  {
    forall q | 0 <= q < |Http| ensures u[q] != '=' {
      assert u[q] == u[..|Http|][q];
    }
  }

  /** In a text that starts with `http://`, the leftmost `http://` is that one. */
  lemma UpgradeLeading(s: string)
    requires |s| >= |Http| && s[..|Http|] == Http
    ensures ReplaceFirst(s, Http, Https) == Https + s[|Http|..]
  {
    assert FirstOccurrence(s, Http, 0);
  }

  /** A URL that starts with `http://` always comes out starting with `https://`. */
  lemma ProfileImageUpgradesScheme(u: string)
    requires |u| >= |Http| && u[..|Http|] == Http
    ensures var r := ProfileImage(Some(u)).value;
            |r| >= |Https| && r[..|Https|] == Https
  {
    var sized := if Contains(u, GoogleHost) then ReplaceSizeToken(u) else u;
    if Contains(u, GoogleHost) {
      SizeTokenKeepsScheme(u);
    }
    UpgradeLeading(sized);
    assert (Https + sized[|Http|..])[..|Https|] == Https;
  }

  /** `p` occurs at most once in `s`. */
  ghost predicate AtMostOnce(s: string, p: string) {
    forall i, j :: OccursAt(s, p, i) && OccursAt(s, p, j) ==> i == j
  }

  /** The text put in by a splice sits at its own place in the result. */
  lemma SpliceMiddle(a: string, m: string, b: string)
    ensures OccursAt(a + m + b, m, |a|)
  {
    assert (a + m + b)[|a|..|a| + |m|] == m;
  }

  /** Occurrences of two texts that share no character do not overlap. */
  lemma DisjointApart(t: string, m: string, i: int, p: string, k: int)
    requires OccursAt(t, m, i) && OccursAt(t, p, k) && |m| > 0 && |p| > 0
    requires forall x, y :: 0 <= x < |m| && 0 <= y < |p| ==> m[x] != p[y]
    ensures k + |p| <= i || i + |m| <= k
  {
    forall q | i <= q < i + |m| ensures t[q] == m[q - i] {
      assert t[q] == t[i..i + |m|][q - i];
    }
    forall q | k <= q < k + |p| ensures t[q] == p[q - k] {
      assert t[q] == t[k..k + |p|][q - k];
    }
    var q := if k < i then i else k;
    var c := t[q];  // the character both would have to share
  }

  /**
   * An occurrence of `p` after a splice by text that shares no character with `p` lies wholly
   * before or wholly after the inserted text, and is an occurrence in the original.
   */
  lemma SpliceReflects(s: string, i: int, e: int, m: string, p: string, k: int)
    requires 0 <= i <= e <= |s| && |m| > 0 && |p| > 0
    requires forall x, y :: 0 <= x < |m| && 0 <= y < |p| ==> m[x] != p[y]
    requires OccursAt(s[..i] + m + s[e..], p, k)
    ensures (k + |p| <= i && OccursAt(s, p, k)) || (i + |m| <= k && OccursAt(s, p, k - |m| + (e - i)))
  {
    var t := s[..i] + m + s[e..];
    var w := t[k..k + |p|];
    SpliceMiddle(s[..i], m, s[e..]);
    DisjointApart(t, m, i, p, k);
    SpliceWindow(s[..i], m, s[e..], k, |p|);
    if k + |p| <= i {
      assert w == s[k..k + |p|];
    } else {
      var k' := k - |m| + (e - i);
      assert w == s[k'..k' + |p|];
    }
  }

  /** The size rewrite keeps a single `http://` single: `=s200-c` shares no character with it. */
  lemma SizeTokenKeepsOnce(u: string)
    requires AtMostOnce(u, Http)
    ensures AtMostOnce(ReplaceSizeToken(u), Http)
  {
    if FirstToken(u, 0).Some? {
      var i, e := SizeTokenSplice(u);
      TokenAvoidsScheme();
      var t := ReplaceSizeToken(u);
      forall k1, k2 | OccursAt(t, Http, k1) && OccursAt(t, Http, k2) ensures k1 == k2 {
        SpliceReflects(u, i, e, SizeToken, Http, k1);
        SpliceReflects(u, i, e, SizeToken, Http, k2);
      }
    } else {
      NoMatchAll(u);
    }
  }

  /** Two occurrences, each starting with a character the other lacks, do not overlap. */
  lemma WindowsApart(s: string, p: string, k: int, w: string, h: int)
    requires OccursAt(s, p, k) && OccursAt(s, w, h) && |p| > 0 && |w| > 0
    requires w[0] !in p && p[0] !in w
    ensures k + |p| <= h || h + |w| <= k
  {
    forall q | k <= q < k + |p| ensures s[q] == p[q - k] {
      assert s[q] == s[k..k + |p|][q - k];
    }
    forall q | h <= q < h + |w| ensures s[q] == w[q - h] {
      assert s[q] == s[h..h + |w|][q - h];
    }
  }

  /** A size-token match does not overlap an occurrence of a text without `=` whose first character no match holds. */
  lemma MatchApart(s: string, j: int, f: int, w: string, h: int)
    requires MatchesAt(s, j, f) && OccursAt(s, w, h) && |w| > 0
    requires '=' !in w && !(w[0] == 's' || IsDigit(w[0]) || w[0] == '-' || w[0] == 'c')
    ensures f <= h || h + |w| <= j
  {
    forall q | h <= q < h + |w| ensures s[q] == w[q - h] {
      assert s[q] == s[h..h + |w|][q - h];
    }
  }

  /** A match depends only on the characters it covers. */
  lemma MatchWindow(s: string, t: string, j: int, f: int, d: int)
    requires 0 <= j <= f <= |s| && 0 <= j + d && f + d <= |t| && s[j..f] == t[j + d..f + d]
    ensures MatchesAt(s, j, f) <==> MatchesAt(t, j + d, f + d)
  {
    forall q | j <= q < f ensures s[q] == t[q + d] {
      assert s[q] == s[j..f][q - j] && t[q + d] == t[j + d..f + d][q - j];
    }
    if j + 5 <= f {
      assert s[j] == t[j + d] && s[j + 1] == t[j + 1 + d] && s[f - 2] == t[f - 2 + d] && s[f - 1] == t[f - 1 + d];
      assert (forall k :: j + 2 <= k < f - 2 ==> IsDigit(s[k])) <==> (forall k :: j + d + 2 <= k < f + d - 2 ==> IsDigit(t[k])) by {
        forall k | j + d + 2 <= k < f + d - 2 ensures t[k] == s[k - d] {
          assert s[k - d] == t[k - d + d];
        }
      }
    }
  }

  /** The leftmost `http://` and the splice that upgrades it. */
  lemma UpgradeSplice(s: string) returns (h: int)
    requires Contains(s, Http)
    ensures OccursAt(s, Http, h) && ReplaceFirst(s, Http, Https) == s[..h] + Https + s[h + |Http|..]
  {
    h := IndexOf(s, Http).value;
  }

  /** Before the upgraded `http://` at `h`, the text is unchanged. */
  lemma UpgradeBefore(s: string, h: int, x: int, len: nat)
    requires 0 <= x && x + len <= h && h + |Http| <= |s|
    ensures (s[..h] + Https + s[h + |Http|..])[x..x + len] == s[x..x + len]
  {
    SpliceWindow(s[..h], Https, s[h + |Http|..], x, len);
    assert s[..h][x..x + len] == s[x..x + len];
  }

  /** After the upgraded `http://` at `h`, the text is shifted by the added `s`. */
  lemma UpgradeAfter(s: string, h: int, x: int, len: nat)
    requires 0 <= h && h + |Https| <= x && x + len <= |s| + 1 && h + |Http| <= |s|
    ensures (s[..h] + Https + s[h + |Http|..])[x..x + len] == s[x - 1..x - 1 + len]
  {
    SpliceWindow(s[..h], Https, s[h + |Http|..], x, len);
    assert s[h + |Http|..][x - h - |Https|..x - h - |Https| + len] == s[x - 1..x - 1 + len];
  }

  /** A match after the upgrade of the `http://` at `h` is a match before it, shifted past the added `s`. */
  lemma MatchBack(s: string, h: int, j: int, f: int)
    requires OccursAt(s, Http, h)
    ensures var r := s[..h] + Https + s[h + |Http|..];
            MatchesAt(r, j, f) ==> (f <= h && MatchesAt(s, j, f)) || (h + |Https| <= j && MatchesAt(s, j - 1, f - 1))
  {
    var a, b := s[..h], s[h + |Http|..];
    var r := a + Https + b;
    if MatchesAt(r, j, f) {
      SpliceMiddle(a, Https, b);
      MatchApart(r, j, f, Https, h);
      if f <= h {
        UpgradeBefore(s, h, j, f - j);
        MatchWindow(s, r, j, f, 0);
      } else {
        UpgradeAfter(s, h, j, f - j);
        MatchWindow(s, r, j - 1, f - 1, 1);
      }
    }
  }

  /** A match before the upgrade of the `http://` at `h` is still one after it, shifted past the added `s`. */
  lemma MatchForward(s: string, h: int, j: int, f: int)
    requires OccursAt(s, Http, h)
    ensures var r := s[..h] + Https + s[h + |Http|..];
            MatchesAt(s, j, f) ==> (f <= h && MatchesAt(r, j, f)) || (h + |Http| <= j && MatchesAt(r, j + 1, f + 1))
  {
    var a, b := s[..h], s[h + |Http|..];
    var r := a + Https + b;
    if MatchesAt(s, j, f) {
      MatchApart(s, j, f, Http, h);
      if f <= h {
        UpgradeBefore(s, h, j, f - j);
        MatchWindow(s, r, j, f, 0);
      } else {
        UpgradeAfter(s, h, j + 1, f - j);
        MatchWindow(s, r, j, f, 1);
      }
    }
  }

  /** A text the size rewrite leaves alone holds its leftmost match as `=s200-c` already, or none. */
  lemma FixedTokenAt(s: string) returns (i: int)
    requires ReplaceSizeToken(s) == s && FirstToken(s, 0).Some?
    ensures Leftmost(s, i, i + |SizeToken|) && s[i..i + |SizeToken|] == SizeToken
  {
    var e;
    i, e := FirstToken(s, 0).value.0, FirstToken(s, 0).value.1;
    assert Leftmost(s, i, e);
    assert |s| == i + |SizeToken| + (|s| - e);
    assert s[i..i + |SizeToken|] == (s[..i] + SizeToken + s[e..])[i..i + |SizeToken|];
  }

  /** Upgrading the `http://` at `h` adds no match to a text that has none. */
  lemma UpgradeKeepsNoMatch(s: string, h: int)
    requires OccursAt(s, Http, h) && NoMatch(s)
    ensures NoMatch(s[..h] + Https + s[h + |Http|..])
  {
    var r := s[..h] + Https + s[h + |Http|..];
    forall j, f ensures !MatchesAt(r, j, f) {
      MatchBack(s, h, j, f);
    }
  }

  /** Upgrading the `http://` at `h` moves the leftmost match, already `=s200-c`, by at most the added `s`. */
  lemma UpgradeKeepsFixedToken(s: string, h: int, i: int) returns (i': int)
    requires OccursAt(s, Http, h) && Leftmost(s, i, i + |SizeToken|) && s[i..i + |SizeToken|] == SizeToken
    ensures var r := s[..h] + Https + s[h + |Http|..];
            Leftmost(r, i', i' + |SizeToken|) && r[i'..i' + |SizeToken|] == SizeToken
  {
    var a, b := s[..h], s[h + |Http|..];
    var r := a + Https + b;
    MatchForward(s, h, i, i + |SizeToken|);
    i' := if i + |SizeToken| <= h then i else i + 1;
    forall j, f | 0 <= j < i' ensures !MatchesAt(r, j, f) {
      MatchBack(s, h, j, f);
    }
    if i + |SizeToken| <= h {
      UpgradeBefore(s, h, i, |SizeToken|);
    } else {
      UpgradeAfter(s, h, i + 1, |SizeToken|);
    }
  }

  /** A leftmost match that is `=s200-c` already is rewritten to itself. */
  lemma TokenFixedAt(s: string, i: int)
    requires Leftmost(s, i, i + |SizeToken|) && s[i..i + |SizeToken|] == SizeToken
    ensures ReplaceSizeToken(s) == s
  {
    assert s[..i] + SizeToken + s[i + |SizeToken|..] == s;
  }

  /** Upgrading the `http://` at `h` keeps a text the size rewrite leaves alone that way. */
  lemma UpgradeKeepsTokenFixed(s: string, h: int)
    requires OccursAt(s, Http, h) && ReplaceSizeToken(s) == s
    ensures var r := s[..h] + Https + s[h + |Http|..]; ReplaceSizeToken(r) == r
  {
    if FirstToken(s, 0).None? {
      NoMatchAll(s);
      UpgradeKeepsNoMatch(s, h);
    } else {
      var i := FixedTokenAt(s);
      var i' := UpgradeKeepsFixedToken(s, h, i);
      TokenFixedAt(s[..h] + Https + s[h + |Http|..], i');
    }
  }

  /** Upgrading the only `http://`, at `h`, leaves none at `k`. */
  lemma UpgradeNoHttpAt(s: string, h: int, k: int)
    requires AtMostOnce(s, Http) && OccursAt(s, Http, h) && 0 <= k
    ensures !OccursAt(s[..h] + Https + s[h + |Http|..], Http, k)
  {
    var r := s[..h] + Https + s[h + |Http|..];
    if k + |Http| <= |r| {
      if k + |Http| <= h {
        UpgradeBefore(s, h, k, |Http|);
        assert !OccursAt(s, Http, k);
      } else if k >= h + |Https| {
        UpgradeAfter(s, h, k, |Http|);
        assert !OccursAt(s, Http, k - 1);
      } else {
        // the window meets the `https://`, and `http://` does not fit there
        SpliceMiddle(s[..h], Https, s[h + |Http|..]);
        var x := if k < h then h - k else if k == h then 4 else 0;
        assert r[k + x] == r[h..h + |Https|][k + x - h];
        assert r[k..k + |Http|][x] != Http[x];
      }
    }
  }

  /** Upgrading the only `http://` leaves none: the `https://` put in its place holds no `http://`. */
  lemma UpgradeLeavesNoHttp(s: string)
    requires AtMostOnce(s, Http)
    ensures !Contains(ReplaceFirst(s, Http, Https), Http)
  {
    if Contains(s, Http) {
      var h := UpgradeSplice(s);
      var r := s[..h] + Https + s[h + |Http|..];
      forall k | 0 <= k ensures !OccursAt(r, Http, k) {
        UpgradeNoHttpAt(s, h, k);
      }
    }
  }

  /** The Google host survives upgrading the `http://` at `h`: the two do not overlap. */
  lemma UpgradeKeepsHostForward(s: string, h: int, k: int)
    requires OccursAt(s, Http, h) && OccursAt(s, GoogleHost, k)
    ensures Contains(s[..h] + Https + s[h + |Http|..], GoogleHost)
  {
    WindowsApart(s, GoogleHost, k, Http, h);
    SpliceKeeps(s, h, h + |Http|, Https, GoogleHost, k);
  }

  /** A Google host after upgrading the `http://` at `h` was there before. */
  lemma UpgradeKeepsHostBack(s: string, h: int, k: int)
    requires OccursAt(s, Http, h) && OccursAt(s[..h] + Https + s[h + |Http|..], GoogleHost, k)
    ensures Contains(s, GoogleHost)
  {
    var a, b := s[..h], s[h + |Http|..];
    var r := a + Https + b;
    SpliceMiddle(a, Https, b);
    WindowsApart(r, GoogleHost, k, Https, h);
    if k + |GoogleHost| <= h {
      UpgradeBefore(s, h, k, |GoogleHost|);
      assert OccursAt(s, GoogleHost, k);
    } else {
      UpgradeAfter(s, h, k, |GoogleHost|);
      assert OccursAt(s, GoogleHost, k - 1);
    }
  }

  /** Upgrading the scheme neither adds nor removes the Google host. */
  lemma UpgradeKeepsHost(s: string)
    ensures Contains(ReplaceFirst(s, Http, Https), GoogleHost) <==> Contains(s, GoogleHost)
  {
    if Contains(s, Http) {
      var h := UpgradeSplice(s);
      if Contains(s, GoogleHost) {
        var k :| 0 <= k <= |s| && OccursAt(s, GoogleHost, k);
        UpgradeKeepsHostForward(s, h, k);
      }
      var r := s[..h] + Https + s[h + |Http|..];
      if Contains(r, GoogleHost) {
        var k :| 0 <= k <= |r| && OccursAt(r, GoogleHost, k);
        UpgradeKeepsHostBack(s, h, k);
      }
    }
  }

  /** With at most one `http://`, `getProfileImage` is idempotent: applying it to its own output changes nothing. */
  lemma ProfileImageIdempotent(url: Option<string>)
    requires url.Some? ==> AtMostOnce(url.value, Http)
    ensures ProfileImage(ProfileImage(url)) == ProfileImage(url)
  {
    if url.Some? && url.value != "" {
      var u := url.value;
      var sized := if Contains(u, GoogleHost) then ReplaceSizeToken(u) else u;
      if Contains(u, GoogleHost) {
        SizeTokenKeepsOnce(u);
        SizeTokenKeepsHost(u);
        ReplaceSizeTokenIdempotent(u);
        if Contains(sized, Http) {
          var h := UpgradeSplice(sized);
          UpgradeKeepsTokenFixed(sized, h);
        }
      }
      UpgradeLeavesNoHttp(sized);
      UpgradeKeepsHost(sized);
    }
  }

  /** A text without `=` holds no size token, so the size rewrite leaves it alone. */
  lemma NoEqualsNoToken(s: string)
    requires '=' !in s
    ensures ReplaceSizeToken(s) == s
  {
    forall j, f ensures !MatchesAt(s, j, f) {
      if 0 <= j < |s| { assert s[j] in s; }
    }
  }

  /** A Google-hosted URL without `=` only has its scheme rewritten. */
  lemma HostedWithoutToken(s: string)
    requires s != "" && Contains(s, GoogleHost) && '=' !in s
    ensures ProfileImage(Some(s)) == Some(ReplaceFirst(s, Http, Https))
  {
    NoEqualsNoToken(s);
  }

  /** Each rewrite of an `http://` makes the text one character longer. */
  lemma UpgradeGrows(s: string)
    requires Contains(s, Http)
    ensures |ReplaceFirst(s, Http, Https)| == |s| + 1
  {
    var i := IndexOf(s, Http).value;
  }

  /** An occurrence survives putting text in front. */
  lemma ContainsAfterPrefix(pre: string, s: string, p: string)
    requires Contains(s, p)
    ensures Contains(pre + s, p)
  {
    var k :| 0 <= k <= |s| && OccursAt(s, p, k);
    assert (pre + s)[|pre| + k..|pre| + k + |p|] == s[k..k + |p|];
    assert OccursAt(pre + s, p, |pre| + k);
  }

  /** A Google-hosted URL without `=` that starts with `http://` only has that scheme upgraded. */
  lemma LeadingSchemeUpgraded(x: string)
    requires '=' !in x && Contains(x, GoogleHost)
    ensures ProfileImage(Some(Http + x)) == Some(Https + x)
  {
    var u := Http + x;
    assert '=' !in Http;
    ContainsAfterPrefix(Http, x, GoogleHost);
    HostedWithoutToken(u);
    assert u[..|Http|] == Http && u[|Http|..] == x;
    UpgradeLeading(u);
  }

  /**
   * With two `http://`s the rewrite is not idempotent, even for a Google-hosted URL: each
   * application upgrades one more of them.
   */
  lemma DoubleSchemeNotIdempotent(rest: string)
    requires '=' !in rest && Contains(rest, GoogleHost)
    ensures var u := Some(Http + Http + rest);
            ProfileImage(ProfileImage(u)) != ProfileImage(u)
  {
    var x := Http + rest;
    assert Http + Http + rest == Http + x;
    assert '=' !in Http;
    ContainsAfterPrefix(Http, rest, GoogleHost);
    LeadingSchemeUpgraded(x);
    var r := Https + x;
    assert '=' !in Https;
    ContainsAfterPrefix(Https, x, GoogleHost);
    HostedWithoutToken(r);
    assert OccursAt(x, Http, 0);
    ContainsAfterPrefix(Https, x, Http);
    UpgradeGrows(r);
  }

  /** A concrete instance: `http://http://lh3.googleusercontent.com/a`. */
  lemma ProfileImageNotIdempotent()
    ensures var u := Some(Http + Http + "lh3." + GoogleHost + "/a");
            ProfileImage(ProfileImage(u)) != ProfileImage(u)
  {
    var rest := "lh3." + GoogleHost + "/a";
    assert rest[4..4 + |GoogleHost|] == GoogleHost;
    assert OccursAt(rest, GoogleHost, 4);
    assert Http + Http + "lh3." + GoogleHost + "/a" == Http + Http + rest;
    DoubleSchemeNotIdempotent(rest);
  }

  /** The `user` object the navbar keeps: `email`, `name`, and the rewritten picture as `imageUrl`. */
  datatype DisplayUser = DisplayUser(email: Option<string>, name: Option<string>, imageUrl: Option<string>)

  function DisplayUserOf(rec: SessionRecord): (u: DisplayUser)
    ensures u.email == rec.email && u.name == rec.name && u.imageUrl == ProfileImage(rec.picture)
  {
    DisplayUser(rec.email, rec.name, ProfileImage(rec.picture))
  }

  /** `user.name?.charAt(0).toUpperCase() || '?'`. */
  function AvatarInitial(name: Option<string>): (r: string)
    ensures r == "?" <==> name.None? || name.value == "" || name.value[0] == '?'
    ensures name.Some? && name.value != "" ==> r == UpperCase(name.value[0])
    ensures r != ""
  {
    if name.None? || name.value == "" then "?" else UpperCase(name.value[0])
  }

  /** What `UserAvatar` renders. */
  datatype Avatar = NoAvatar | Initial(text: string) | Photo(src: string)

  function AvatarFor(user: Option<DisplayUser>, imageError: bool): (a: Avatar)
    ensures a.NoAvatar? <==> user.None?
    ensures a.Photo? <==> user.Some? && !imageError && user.value.imageUrl.Some? && user.value.imageUrl.value != ""
    ensures a.Photo? ==> a.src == user.value.imageUrl.value
    ensures a.Initial? ==> a.text == AvatarInitial(user.value.name)
  {
    if user.None? then NoAvatar
    else if imageError || user.value.imageUrl.None? || user.value.imageUrl.value == "" then
      Initial(AvatarInitial(user.value.name))
    else Photo(user.value.imageUrl.value)
  }

  /** The navbar's state: the mobile menu, the signed-in user, the dropdown and the image-failure flag. */
  class Navigation {
    var isMenuOpen: bool
    var user: Option<DisplayUser>
    var showDropdown: bool
    var imageError: bool
    /** The last `window.location.href` assignment. */
    var location: Option<string>
    const store: Storage

    constructor (store: Storage)
      ensures this.store == store
      ensures !isMenuOpen && user == None && !showDropdown && !imageError && location == None
    {
      this.store := store;
      isMenuOpen := false;
      user := None;
      showDropdown := false;
      imageError := false;
      location := None;
    }

    /**
     * `checkUserAuth`: a non-empty stored record that parses becomes the user, with its
     * picture rewritten, and clears the image-failure flag. An absent key, an empty value or
     * malformed JSON changes nothing; in particular an existing user is not cleared.
     */
    method CheckUserAuth()
      modifies this`user, this`imageError
      ensures var stored := store.GetItem(GoogleCredentialKey);
              if stored.Some? && stored.value != "" && Parse(stored.value).Some? then
                user == Some(DisplayUserOf(Parse(stored.value).value)) && !imageError
              else
                user == old(user) && imageError == old(imageError)
    {
      var stored := store.GetItem(GoogleCredentialKey);
      if stored.Some? && stored.value != "" {
        var parsed := Parse(stored.value);
        if parsed.Some? {
          user := Some(DisplayUserOf(parsed.value));
          imageError := false;
        }
      }
    }

    /** `toggleDropdown`: flips the dropdown. */
    method ToggleDropdown()
      modifies this`showDropdown
      ensures showDropdown == !old(showDropdown)
    {
      showDropdown := !showDropdown;
    }

    /**
     * The document's `mousedown` handler. The dropdown wrapper exists only while a user is shown,
     * so without a user the handler does nothing; with one, a press outside closes the dropdown.
     */
    method MouseDown(insideDropdown: bool)
      modifies this`showDropdown
      ensures showDropdown == (old(showDropdown) && (user.None? || insideDropdown))
    {
      if user.Some? && !insideDropdown {
        showDropdown := false;
      }
    }

    /** `handleLogout`: forget the record, reset the local state and go to the home page. */
    method HandleLogout()
      modifies store, this`user, this`showDropdown, this`imageError, this`location
      ensures store.items == old(store.items) - {GoogleCredentialKey}
      ensures user == None && !showDropdown && !imageError && location == Some(HomeRoute)
    {
      store.RemoveItem(GoogleCredentialKey);
      user := None;
      showDropdown := false;
      imageError := false;
      location := Some(HomeRoute);
    }

    /** The avatar image's `onError`: from now on the initial is shown instead of the photo. */
    method ImageLoadFailed()
      modifies this`imageError
      ensures imageError
      ensures AvatarFor(user, imageError) == if user.None? then NoAvatar else Initial(AvatarInitial(user.value.name))
    {
      imageError := true;
    }

    /** The mobile menu button. */
    method ToggleMenu()
      modifies this`isMenuOpen
      ensures isMenuOpen == !old(isMenuOpen)
    {
      isMenuOpen := !isMenuOpen;
    }
  }
}
