/**
 * The few functions of Go's `strings` package that the core relies on,
 * over strings seen as sequences of characters.
 */
module GoStrings {

  /** `strings.HasPrefix`: `s` begins with `prefix`, character by character. */
  predicate HasPrefix(s: string, prefix: string)
    ensures HasPrefix(s, prefix) <==> |prefix| <= |s| && forall i :: 0 <= i < |prefix| ==> s[i] == prefix[i]
  {
    |prefix| <= |s| && s[..|prefix|] == prefix
  }

  /** `strings.TrimPrefix`: drops `prefix` once when it is there. */
  function TrimPrefix(s: string, prefix: string): (r: string)
    ensures HasPrefix(s, prefix) ==> prefix + r == s
    ensures !HasPrefix(s, prefix) ==> r == s
  {
    if HasPrefix(s, prefix) then s[|prefix|..] else s
  }

  /** `sub` occurs in `s` starting at position `i`. */
  predicate OccursAt(s: string, sub: string, i: int) {
    0 <= i && i + |sub| <= |s| && s[i..i + |sub|] == sub
  }

  /** `strings.Index`: the first position of `sub` in `s`, or -1. */
  function Index(s: string, sub: string): (r: int)
    ensures -1 <= r <= |s|
    ensures r == -1 <==> forall i :: 0 <= i <= |s| ==> !OccursAt(s, sub, i)
    ensures r >= 0 ==> OccursAt(s, sub, r) && forall i :: 0 <= i < r ==> !OccursAt(s, sub, i)
    decreases |s|
  {
    if |s| < |sub| then -1
    else if s[..|sub|] == sub then assert OccursAt(s, sub, 0); 0
    else
      var r := Index(s[1..], sub);
      assert forall i :: 1 <= i <= |s| ==> (OccursAt(s, sub, i) <==> OccursAt(s[1..], sub, i - 1));
      if r < 0 then -1 else assert OccursAt(s, sub, r + 1); r + 1
  }

  /** Where a character first appears, `Index` of it finds it. */
  lemma IndexOfFirstChar(t: string, ch: char, p: nat)
    requires p < |t| && t[p] == ch && ch !in t[..p]
    ensures Index(t, [ch]) == p
  {
    assert OccursAt(t, [ch], p) by { assert t[p..p + 1] == [t[p]]; }
    forall i | 0 <= i < p ensures !OccursAt(t, [ch], i) {
      assert t[..p][i] == t[i];
      assert t[i..i + 1] == [t[i]];
    }
  }

  predicate Contains(s: string, sub: string) {
    Index(s, sub) >= 0
  }

  /**
   * `strings.ReplaceAll` for a non-empty pattern: scans left to right and
   * replaces every non-overlapping occurrence of `pat` by `rep`.
   */
  function ReplaceAll(s: string, pat: string, rep: string): (r: string)
    requires pat != []
    ensures (forall i :: 0 <= i <= |s| ==> !OccursAt(s, pat, i)) ==> r == s
    decreases |s|
  {
    if |s| < |pat| then s
    else if s[..|pat|] == pat then
      assert OccursAt(s, pat, 0);
      rep + ReplaceAll(s[|pat|..], pat, rep)
    else
      assert forall i :: 0 <= i <= |s[1..]| && OccursAt(s[1..], pat, i) ==> OccursAt(s, pat, i + 1) by {
        forall i | 0 <= i <= |s[1..]| && OccursAt(s[1..], pat, i) ensures OccursAt(s, pat, i + 1) {
          assert s[1..][i..i + |pat|] == s[i + 1..i + 1 + |pat|];
        }
      }
      [s[0]] + ReplaceAll(s[1..], pat, rep)
  }

  /** A prefix `a` in which no occurrence of `pat` starts is copied unchanged. */
  lemma {:induction false} ReplaceAllSkip(a: string, x: string, pat: string, rep: string)
    requires pat != []
    requires forall i :: 0 <= i < |a| ==> !HasPrefix((a + x)[i..], pat)
    ensures ReplaceAll(a + x, pat, rep) == a + ReplaceAll(x, pat, rep)
    decreases |a|
  {
    if a != [] {
      var s := a + x;
      assert !HasPrefix(s[0..], pat);
      assert s[0..] == s;
      if |s| < |pat| {
        assert ReplaceAll(x, pat, rep) == x;
        assert ReplaceAll(s, pat, rep) == s;
      } else {
        assert s[..|pat|] != pat;
        assert s[1..] == a[1..] + x;
        forall i | 0 <= i < |a[1..]| ensures !HasPrefix((a[1..] + x)[i..], pat) {
          assert (a[1..] + x)[i..] == s[i + 1..];
        }
        ReplaceAllSkip(a[1..], x, pat, rep);
        var tail := ReplaceAll(x, pat, rep);
        calc {
          ReplaceAll(s, pat, rep);
          [s[0]] + ReplaceAll(s[1..], pat, rep);
          [a[0]] + (a[1..] + tail);
          ([a[0]] + a[1..]) + tail;
          { assert [a[0]] + a[1..] == a; }
          a + tail;
        }
      }
    } else {
      assert a + x == x;
    }
  }

  /** `ReplaceAll` on a text that starts with the pattern. */
  lemma ReplaceAllHead(pat: string, t: string, rep: string)
    requires pat != []
    ensures ReplaceAll(pat + t, pat, rep) == rep + ReplaceAll(t, pat, rep)
  {
    assert (pat + t)[..|pat|] == pat;
    assert (pat + t)[|pat|..] == t;
  }

  /** `ReplaceAll` on a text that does not start with the pattern copies its first character. */
  lemma ReplaceAllCons(c: char, t: string, pat: string, rep: string)
    requires pat != [] && !HasPrefix([c] + t, pat)
    ensures ReplaceAll([c] + t, pat, rep) == [c] + ReplaceAll(t, pat, rep)
  {
    assert ([c] + t)[0..] == [c] + t;
    ReplaceAllSkip([c], t, pat, rep);
  }

  /**
   * `ReplaceAll` as `strings.Replace` computes it: when the first occurrence
   * of `pat` starts at `k`, the text before it is copied, the occurrence
   * becomes `rep`, and the replacing goes on after the occurrence. (With no
   * occurrence at all, the text is copied: the ensures of `ReplaceAll`.)
   */
  lemma ReplaceAllFirst(s: string, pat: string, rep: string, k: nat)
    requires pat != [] && OccursAt(s, pat, k)
    requires forall i :: 0 <= i < k ==> !OccursAt(s, pat, i)
    ensures ReplaceAll(s, pat, rep) == s[..k] + (rep + ReplaceAll(s[k + |pat|..], pat, rep))
  {
    var a, rest := s[..k], s[k + |pat|..];
    SplitAtOccurrence(s, pat, k);
    NoPrefixBefore(s, pat, k);
    ReplaceAllSkip(a, pat + rest, pat, rep);
    ReplaceAllHead(pat, rest, rep);
  }

  /** An occurrence at `k` splits `s` into the text before it, `pat`, and the rest. */
  lemma SplitAtOccurrence(s: string, pat: string, k: nat)
    requires OccursAt(s, pat, k)
    ensures s == s[..k] + (pat + s[k + |pat|..])
  {
    assert s[k..k + |pat|] == pat;
  }

  /** No occurrence starting before `k` means no suffix before `k` starts with `pat`. */
  lemma NoPrefixBefore(s: string, pat: string, k: nat)
    requires k <= |s|
    requires forall i :: 0 <= i < k ==> !OccursAt(s, pat, i)
    ensures forall i :: 0 <= i < k ==> !HasPrefix(s[i..], pat)
  {
    forall i | 0 <= i < k ensures !HasPrefix(s[i..], pat) {
      assert !OccursAt(s, pat, i);
      if |pat| <= |s[i..]| {
        assert s[i..][..|pat|] == s[i..i + |pat|];
      }
    }
  }

  /**
   * A result prefix `p` that never contains the first character of `rep`
   * cannot come from a replacement, so it was already a prefix of the input.
   */
  lemma {:induction false} ReplaceAllPrefixBack(t: string, pat: string, rep: string, p: string)
    requires pat != [] && rep != []
    requires forall j :: 0 <= j < |p| ==> p[j] != rep[0]
    ensures HasPrefix(ReplaceAll(t, pat, rep), p) ==> HasPrefix(t, p)
    decreases |t|
  {
    if p != [] && |t| >= |pat| {
      var r := ReplaceAll(t, pat, rep);
      if t[..|pat|] == pat {
        assert r[0] == rep[0] != p[0];
      } else {
        var tail := ReplaceAll(t[1..], pat, rep);
        assert r == [t[0]] + tail;
        ReplaceAllPrefixBack(t[1..], pat, rep, p[1..]);
        if HasPrefix(r, p) {
          assert HasPrefix(tail, p[1..]);
          forall i | 0 <= i < |p| ensures t[i] == p[i] {
            if i > 0 {
              assert t[1..][..|p| - 1][i - 1] == p[1..][i - 1];
            }
          }
          assert t[..|p|] == p;
        }
      }
    }
  }

  /**
   * When `pat` does not start with a character of `rep` and `rep` does not
   * start with a character of the rest of `pat`, no occurrence of `pat`
   * survives a `ReplaceAll` of it.
   */
  lemma {:induction false} ReplaceAllRemoves(s: string, pat: string, rep: string)
    requires pat != [] && rep != []
    requires pat[0] !in rep && rep[0] !in pat[1..]
    ensures !Contains(ReplaceAll(s, pat, rep), pat)
    decreases |s|
  {
    if |s| >= |pat| {
      if s[..|pat|] == pat {
        ReplaceAllRemoves(s[|pat|..], pat, rep);
        NoneAfterReplacement(rep, ReplaceAll(s[|pat|..], pat, rep), pat);
      } else {
        ReplaceAllRemoves(s[1..], pat, rep);
        NoneAfterCopied(s, pat, rep);
      }
    }
  }

  /** An occurrence at or after the end of `a` in `a + t` is an occurrence in `t`. */
  lemma OccursAfter(a: string, t: string, pat: string, i: int)
    requires |a| <= i && OccursAt(a + t, pat, i)
    ensures OccursAt(t, pat, i - |a|)
  {
    assert (a + t)[i..i + |pat|] == t[i - |a|..i - |a| + |pat|];
  }

  /** No occurrence starts inside a replacement that lacks `pat[0]`, nor in a clean tail. */
  lemma NoneAfterReplacement(rep: string, tail: string, pat: string)
    requires pat != [] && pat[0] !in rep && !Contains(tail, pat)
    ensures !Contains(rep + tail, pat)
  {
    var r := rep + tail;
    forall i | 0 <= i <= |r| ensures !OccursAt(r, pat, i) {
      if i < |rep| {
        assert r[i] == rep[i] && rep[i] in rep;
      } else if OccursAt(r, pat, i) {
        OccursAfter(rep, tail, pat, i);
      }
    }
  }

  /**
   * A copied first character cannot start an occurrence: the rest of `pat`
   * would have to survive the replacement unchanged, so `s` started with `pat`.
   */
  lemma NoneAfterCopied(s: string, pat: string, rep: string)
    requires pat != [] && rep != [] && rep[0] !in pat[1..]
    requires |s| >= |pat| && s[..|pat|] != pat
    requires !Contains(ReplaceAll(s[1..], pat, rep), pat)
    ensures !Contains([s[0]] + ReplaceAll(s[1..], pat, rep), pat)
  {
    var tail := ReplaceAll(s[1..], pat, rep);
    var r := [s[0]] + tail;
    forall i | 0 <= i <= |r| ensures !OccursAt(r, pat, i) {
      if i == 0 {
        NotAtCopiedFront(s, pat, rep);
      } else if OccursAt(r, pat, i) {
        OccursAfter([s[0]], tail, pat, i);
      }
    }
  }

  /** The occurrence test at the copied first character fails. */
  lemma NotAtCopiedFront(s: string, pat: string, rep: string)
    requires pat != [] && rep != [] && rep[0] !in pat[1..]
    requires |s| >= |pat| && s[..|pat|] != pat
    ensures !OccursAt([s[0]] + ReplaceAll(s[1..], pat, rep), pat, 0)
  {
    var tail := ReplaceAll(s[1..], pat, rep);
    var r := [s[0]] + tail;
    if OccursAt(r, pat, 0) {
      assert r[..|pat|] == [s[0]] + tail[..|pat| - 1];
      assert HasPrefix(tail, pat[1..]);
      forall j | 0 <= j < |pat[1..]| ensures pat[1..][j] != rep[0] {
        assert pat[1..][j] in pat[1..];
      }
      ReplaceAllPrefixBack(s[1..], pat, rep, pat[1..]);
    }
  }

  /**
   * `unicode.IsSpace`, the separator test of `strings.Fields`: the ASCII
   * white space, NEL, NO-BREAK SPACE and the other Unicode White_Space
   * characters.
   */
  predicate IsSpace(c: char)
    ensures (c as int) < 0x100 ==> (IsSpace(c) <==> c as int in {9, 10, 11, 12, 13, 32, 0x85, 0xA0})
  {
    var n := c as int;
    (9 <= n <= 13) || n == 32 || n == 0x85 || n == 0xA0
    || n == 0x1680 || (0x2000 <= n <= 0x200A) || n == 0x2028 || n == 0x2029
    || n == 0x202F || n == 0x205F || n == 0x3000
  }

  /** Length of the run of non-space characters at the start of `s`. */
  function WordLength(s: string): (n: nat)
    ensures n <= |s|
    ensures forall i :: 0 <= i < n ==> !IsSpace(s[i])
    ensures n < |s| ==> IsSpace(s[n])
  {
    if s == [] || IsSpace(s[0]) then 0 else 1 + WordLength(s[1..])
  }

  /** `strings.Fields`: the maximal runs of non-space characters, in order. */
  function Fields(s: string): (fs: seq<string>)
    ensures forall k :: 0 <= k < |fs| ==> fs[k] != [] && forall i :: 0 <= i < |fs[k]| ==> !IsSpace(fs[k][i])
    decreases |s|
  {
    if s == [] then []
    else if IsSpace(s[0]) then Fields(s[1..])
    else
      var n := WordLength(s);
      [s[..n]] + Fields(s[n..])
  }
}
