/**
 File-name wildcards (`wildmatch` and `dos83match` in `src/dos.cpp`): a greedy matcher that
 remembers only the last star, against the meaning of `*` and `?`.
 */
module Glob {
  import opened Widths

  const STAR: Byte := 0x2A
  const QUERY: Byte := 0x3F
  const DOT: Byte := 0x2E

  type Name = seq<Byte>

  /** `toupper` of one byte, in the C locale. */
  function Up(c: Byte): Byte { if 0x61 <= c <= 0x7A then c - 0x20 else c }

  /** One pattern byte, not acting as a star, against one name byte. */
  predicate Fits(p: Byte, c: Byte) { p == QUERY || Up(p) == Up(c) }

  /** What a pattern means: `*` is any run of bytes, `?` any one byte. */
  predicate Match(pat: Name, s: Name)
    decreases |pat| + |s|
  {
    if pat == [] then s == []
    else if pat[0] == STAR then Match(pat[1..], s) || (s != [] && Match(pat, s[1..]))
    else s != [] && Fits(pat[0], s[0]) && Match(pat[1..], s[1..])
  }

  /** The same byte, or the same Latin letter in the other case. */
  predicate SameLetter(c: Byte, d: Byte) {
    || c == d
    || (0x41 <= c <= 0x5A && d == c + 0x20)
    || (0x41 <= d <= 0x5A && c == d + 0x20)
  }

  /** Which bytes fit: `?` every one, any other only itself, whatever the case. */
  lemma FitsIs(p: Byte, c: Byte)
    ensures Fits(p, c) <==> p == 0x3F || SameLetter(p, c)
  {
  }

  /** A pattern without `*` and `?` matches a name exactly when they are the same but for case. */
  lemma {:induction false} PlainMatch(pat: Name, s: Name)
    requires forall i :: 0 <= i < |pat| ==> pat[i] != 0x2A && pat[i] != 0x3F
    ensures Match(pat, s) <==> |s| == |pat| && forall i :: 0 <= i < |pat| ==> SameLetter(pat[i], s[i])
    decreases |pat|
  {
    hide Fits, SameLetter;
    if pat != [] && s != [] {
      FitsIs(pat[0], s[0]);
      PlainMatch(pat[1..], s[1..]);
      assert pat == [pat[0]] + pat[1..] && s == [s[0]] + s[1..];
    }
  }

  /** What a pattern means to a name is what it means to the name in any other case. */
  lemma {:induction false} CaseBlind(pat: Name, s: Name, t: Name)
    requires |t| == |s| && forall i :: 0 <= i < |s| ==> SameLetter(s[i], t[i])
    ensures Match(pat, s) <==> Match(pat, t)
    decreases |pat| + |s|
  {
    hide SameLetter;
    if pat != [] {
      if pat[0] == STAR { CaseBlind(pat[1..], s, t); }
      if s != [] {
        SameFits(pat[0], s[0], t[0]);
        CaseBlind(if pat[0] == STAR then pat else pat[1..], s[1..], t[1..]);
      }
    }
  }

  lemma SameFits(p: Byte, c: Byte, d: Byte)
    requires SameLetter(c, d)
    ensures Fits(p, c) <==> Fits(p, d)
  {
  }

  predicate StarFree(s: Name) { STAR !in s }

  /** Where the matcher is: `star` is -1 until it has passed one. */
  predicate Sane(pat: Name, name: Name, p: int, n: int, star: int, mark: int) {
    && 0 <= p <= |pat| && 0 <= n <= |name| && -1 <= star < p
    && (star >= 0 ==> 0 <= mark <= n && pat[star] == STAR)
  }

  predicate OnlyStars(pat: Name, p: nat)
    requires p <= |pat|
    decreases |pat| - p
  {
    p == |pat| || (pat[p] == STAR && OnlyStars(pat, p + 1))
  }

  /** The matcher, step by step; a byte that fits is tried before a star. */
  predicate Run(pat: Name, name: Name, p: int, n: int, star: int, mark: int)
    requires Sane(pat, name, p, n, star, mark)
    decreases if star < 0 then |name| + 1 else |name| - mark, |pat| - star, |name| - n
  {
    if n == |name| then OnlyStars(pat, p)
    else if p < |pat| && Fits(pat[p], name[n]) then Run(pat, name, p + 1, n + 1, star, mark)
    else if p < |pat| && pat[p] == STAR then Run(pat, name, p + 1, n, p, n)
    else if star >= 0 then Run(pat, name, star + 1, mark + 1, star, mark + 1)
    else false
  }

  // ---- the greedy matcher is right ---------------------------------------------------

  /** What is still to be decided: from here on, or from the last star with a longer run. */
  ghost predicate Pending(pat: Name, name: Name, p: int, n: int, star: int, mark: int)
    requires Sane(pat, name, p, n, star, mark)
  {
    Match(pat[p..], name[n..]) || (star >= 0 && mark < |name| && Match(pat[star..], name[mark + 1..]))
  }

  /** Since the last star one pattern byte went with each name byte, none of them a star. */
  predicate InStep(pat: Name, p: int, n: int, star: int, mark: int)
    requires 0 <= p <= |pat|
  {
    star >= 0 ==> p - (star + 1) == n - mark && forall i :: star < i < p && 0 <= i ==> pat[i] != STAR
  }

  /** A pattern's star-free front takes exactly as many bytes as it has. */
  lemma {:induction false} FrontTakes(pat: Name, from: nat, to: nat, s: Name)
    requires from <= to <= |pat|
    requires forall i :: from <= i < to ==> pat[i] != STAR
    requires Match(pat[from..], s)
    ensures |s| >= to - from && Match(pat[to..], s[to - from..])
    decreases |s|
  {
    if from < to {
      assert pat[from..][1..] == pat[from + 1..];
      FrontTakes(pat, from + 1, to, s[1..]);
      assert s[1..][to - from - 1..] == s[to - from..];
    } else {
      assert s[0..] == s;
    }
  }

  /** A star that can start later can start now. */
  lemma {:induction false} StarReaches(pat: Name, name: Name, p: nat, n: nat, k: nat)
    requires p < |pat| && pat[p] == STAR && n <= k <= |name|
    requires Match(pat[p..], name[k..])
    ensures Match(pat[p..], name[n..])
    decreases k - n
  {
    if n < k {
      StarReaches(pat, name, p, n + 1, k);
      assert name[n..][1..] == name[n + 1..];
    }
  }

  /** A starred pattern matches because its star takes some first `k - n` bytes. */
  lemma {:induction false} StarTakes(pat: Name, name: Name, star: nat, n: nat) returns (k: nat)
    requires star < |pat| && pat[star] == STAR && n <= |name|
    requires Match(pat[star..], name[n..])
    ensures n <= k <= |name| && Match(pat[star + 1..], name[k..])
    decreases |name| - n
  {
    assert pat[star..][1..] == pat[star + 1..];
    if Match(pat[star + 1..], name[n..]) {
      k := n;
    } else {
      assert name[n..][1..] == name[n + 1..];
      k := StarTakes(pat, name, star, n + 1);
    }
  }

  /** An older star never needs a longer run once a new star has been reached. */
  lemma OldStarDrops(pat: Name, name: Name, p: nat, n: nat, star: int, mark: int)
    requires Sane(pat, name, p, n, star, mark) && InStep(pat, p, n, star, mark)
    requires p < |pat| && pat[p] == STAR && star >= 0 && mark < |name| && Match(pat[star..], name[mark + 1..])
    ensures Match(pat[p..], name[n..])
  {
    hide Match;
    var k := StarTakes(pat, name, star, mark + 1);
    FrontTakes(pat, star + 1, p, name[k..]);
    var j := k + (p - star - 1);
    assert name[k..][p - star - 1..] == name[j..];
    StarReaches(pat, name, p, n, j);
  }

  /** Nor does it when the name has run out. */
  lemma NoRoomLeft(pat: Name, name: Name, p: nat, star: int, mark: int)
    requires Sane(pat, name, p, |name|, star, mark) && InStep(pat, p, |name|, star, mark)
    ensures !(star >= 0 && mark < |name| && Match(pat[star..], name[mark + 1..]))
  {
    hide Match;
    if star >= 0 && mark < |name| && Match(pat[star..], name[mark + 1..]) {
      var k := StarTakes(pat, name, star, mark + 1);
      FrontTakes(pat, star + 1, p, name[k..]);
    }
  }

  lemma {:induction false} StarsMatchNothing(pat: Name, p: nat)
    requires p <= |pat|
    ensures Match(pat[p..], []) <==> OnlyStars(pat, p)
    decreases |pat| - p
  {
    if p < |pat| {
      StarsMatchNothing(pat, p + 1);
      assert pat[p..][1..] == pat[p + 1..];
    }
  }

  /** Each step keeps what is pending, so the matcher decides it. */
  lemma {:induction false} RunDecides(pat: Name, name: Name, p: nat, n: nat, star: int, mark: int)
    requires Sane(pat, name, p, n, star, mark) && InStep(pat, p, n, star, mark) && StarFree(name)
    ensures Run(pat, name, p, n, star, mark) <==> Pending(pat, name, p, n, star, mark)
    decreases if star < 0 then |name| + 1 else |name| - mark, |pat| - star, |name| - n
  {
    if n == |name| {
      NoRoomLeft(pat, name, p, star, mark);
      StarsMatchNothing(pat, p);
      assert name[n..] == [];
    } else {
      assert name[n..][1..] == name[n + 1..] && name[n] in name;
      if p < |pat| { assert pat[p..][1..] == pat[p + 1..]; }
      if p < |pat| && Fits(pat[p], name[n]) {
        RunDecides(pat, name, p + 1, n + 1, star, mark);
      } else if p < |pat| && pat[p] == STAR {
        RunDecides(pat, name, p + 1, n, p, n);
        if star >= 0 && mark < |name| && Match(pat[star..], name[mark + 1..]) {
          OldStarDrops(pat, name, p, n, star, mark);
        }
      } else if star >= 0 {
        RunDecides(pat, name, star + 1, mark + 1, star, mark + 1);
        assert pat[star..][1..] == pat[star + 1..];
        if mark + 1 < |name| { assert name[mark + 1..][1..] == name[mark + 2..]; }
      }
    }
  }

  /** On a name without a star the matcher accepts exactly what the pattern means. */
  lemma WildmatchIs(pat: Name, name: Name)
    requires StarFree(name)
    ensures Run(pat, name, 0, 0, -1, 0) <==> Match(pat, name)
  {
    RunDecides(pat, name, 0, 0, -1, 0);
    assert pat[0..] == pat && name[0..] == name;
  }

  // ---- and exactly on those names ----------------------------------------------------

  /** As many `?` as there are bytes before the name's star, a star, and one `?` too many. */
  function Stumbling(before: nat, after: nat): Name { seq(before, _ => QUERY) + [STAR] + seq(after + 1, _ => QUERY) }

  lemma {:induction false} QueriesMatch(k: nat, s: Name)
    requires |s| == k
    ensures Match(seq(k, _ => QUERY), s)
    decreases k
  {
    var q: Name := seq(k, _ => QUERY);
    if k > 0 {
      assert q[1..] == seq(k - 1, _ => QUERY);
      QueriesMatch(k - 1, s[1..]);
    }
  }

  lemma {:induction false} StumblingMeans(before: nat, after: nat, s: Name)
    requires |s| == before + 1 + after
    ensures Match(Stumbling(before, after), s)
    decreases before
  {
    var q := Stumbling(before, after);
    if before == 0 {
      assert q[1..] == seq(after + 1, _ => QUERY);
      QueriesMatch(after + 1, s);
    } else {
      assert q[1..] == Stumbling(before - 1, after);
      StumblingMeans(before - 1, after, s[1..]);
    }
  }

  lemma {:induction false} StumblingFails(name: Name, i: nat, n: nat)
    requires i < |name| && name[i] == STAR && n <= |name|
    ensures !Run(Stumbling(i, |name| - i - 1), name, n, n, -1, 0)
    decreases |name| - n
  {
    if n < |name| { StumblingFails(name, i, n + 1); }
  }

  /** The matcher is right on every pattern exactly for the names that contain no star. */
  lemma RightExactlyOnStarFree(name: Name)
    ensures (forall pat: Name :: Run(pat, name, 0, 0, -1, 0) <==> Match(pat, name)) <==> StarFree(name)
  {
    if StarFree(name) {
      forall pat: Name ensures Run(pat, name, 0, 0, -1, 0) <==> Match(pat, name) { WildmatchIs(pat, name); }
    } else {
      var i :| 0 <= i < |name| && name[i] == STAR;
      StumblingFails(name, i, 0);
      StumblingMeans(i, |name| - i - 1, name);
    }
  }

  /** A lone star, on any name at all. */
  lemma StarAccepts(name: Name)
    ensures Run([STAR], name, 0, 0, -1, 0) <==> |name| < 2 || name[0] != STAR
  {
    var pat := [STAR];
    assert OnlyStars(pat, 1) && OnlyStars(pat, 0);
    if name != [] && name[0] != STAR {
      StarRuns(name, 0);
    } else if name != [] {
      assert Run(pat, name, 0, 0, -1, 0) == Run(pat, name, 1, 1, -1, 0);
    }
  }

  lemma {:induction false} StarRuns(name: Name, n: nat)
    requires n <= |name|
    ensures Run([STAR], name, 1, n, 0, n)
    decreases |name| - n
  {
    if n < |name| { StarRuns(name, n + 1); }
  }

  // ---- name and extension ------------------------------------------------------------

  /** Up to the first dot, and after it. */
  function Split(s: Name): (Name, Name)
    decreases |s|
  {
    if s == [] then ([], []) else if s[0] == DOT then ([], s[1..])
    else var (a, b) := Split(s[1..]); ([s[0]] + a, b)
  }

  lemma {:induction false} SplitIs(s: Name)
    ensures var (a, b) := Split(s);
            && DOT !in a && (DOT in s ==> s == a + [DOT] + b) && (DOT !in s ==> s == a && b == [])
            && forall c :: c in a || c in b ==> c in s
    decreases |s|
  {
    if s != [] && s[0] != DOT { SplitIs(s[1..]); assert s == [s[0]] + s[1..]; }
    else if s != [] { assert s == [] + [DOT] + s[1..]; }
  }

  /** The pattern's two halves: without a dot it takes any extension. */
  function PatternParts(pat: Name): (Name, Name) { if DOT in pat then Split(pat) else (pat, [STAR]) }

  predicate Dos83(pat: Name, name: Name) {
    Match(PatternParts(pat).0, Split(name).0) && Match(PatternParts(pat).1, Split(name).1)
  }

  method Wildmatch(pat: Name, name: Name) returns (r: bool)
    ensures r == Run(pat, name, 0, 0, -1, 0)
    ensures StarFree(name) ==> r == Match(pat, name)
  {
    if StarFree(name) { WildmatchIs(pat, name); }
    var p, n, star, mark := 0, 0, -1, 0;
    while n < |name|
      invariant Sane(pat, name, p, n, star, mark)
      invariant Run(pat, name, p, n, star, mark) == Run(pat, name, 0, 0, -1, 0)
      decreases if star < 0 then |name| + 1 else |name| - mark, |pat| - star, |name| - n
    {
      if p < |pat| && (pat[p] == QUERY || Up(pat[p]) == Up(name[n])) {
        p, n := p + 1, n + 1;
      } else if p < |pat| && pat[p] == STAR {
        star, mark := p, n;
        p := p + 1;
      } else if star != -1 {
        mark := mark + 1;
        p, n := star + 1, mark;
      } else {
        return false;
      }
    }
    while p < |pat| && pat[p] == STAR
      invariant p <= |pat|
      invariant OnlyStars(pat, p) == Run(pat, name, 0, 0, -1, 0)
    {
      p := p + 1;
    }
    return p == |pat|;
  }

  /** `dos83match`: for a name without a star, name and extension each match as their patterns mean. */
  method Dos83Match(pat: Name, name: Name) returns (r: bool)
    ensures StarFree(name) ==> r == Dos83(pat, name)
    ensures pat == [STAR] || pat == [STAR, DOT, STAR] ==>
              (r <==> var (a, b) := Split(name); (|a| < 2 || a[0] != STAR) && (|b| < 2 || b[0] != STAR))
  {
    var (pn, pe) := Split(pat);
    var (nn, ne) := Split(name);
    SplitIs(pat);
    SplitIs(name);
    if DOT !in pat { pe := [STAR]; }
    StarAccepts(nn);
    StarAccepts(ne);
    var first := Wildmatch(pn, nn);
    var second := Wildmatch(pe, ne);
    r := first && second;
    AllParts();
  }

  /** "*.*" and "*" match every name that contains no star. */
  lemma AllFiles(name: Name)
    requires StarFree(name)
    ensures Dos83([STAR], name) && Dos83([STAR, DOT, STAR], name)
  {
    var (a, b) := Split(name);
    SplitIs(name);
    StarAccepts(a);
    StarAccepts(b);
    WildmatchIs([STAR], a);
    WildmatchIs([STAR], b);
    AllParts();
  }

  lemma AllParts()
    ensures PatternParts([STAR]) == ([STAR], [STAR]) && PatternParts([STAR, DOT, STAR]) == ([STAR], [STAR])
    ensures Split([STAR, DOT, STAR]) == ([STAR], [STAR]) && Split([STAR]).0 == [STAR]
  {
    var all: Name, one: Name := [STAR, DOT, STAR], [STAR];
    assert all[1] == DOT && all[1..] == [DOT, STAR] && all[1..][1..] == [STAR];
    assert Split([DOT, STAR]) == ([], [STAR]);
    assert Split(all) == ([STAR] + [], [STAR]);
    assert one[1..] == [] && Split(one) == ([STAR] + [], []);
    assert one + [] == one;
  }
}
