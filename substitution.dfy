/** Ordered first-occurrence substitution: the `html.replace(old, new, 1)`
    loop of `_generate_pdf_with_images`. Each generic placeholder such as
    `XXX` takes the next value of the list because every replacement rewrites
    only the leftmost remaining occurrence. */
module Substitution {
  import opened Wrappers

  /** `pat` occurs in `s` starting at index `i`. */
  predicate OccursAt(s: string, pat: string, i: nat)
  {
    i + |pat| <= |s| && s[i..i + |pat|] == pat
  }

  predicate Absent(s: string, pat: string)
  {
    forall j :: 0 <= j <= |s| ==> !OccursAt(s, pat, j)
  }

  /** `i` is the leftmost occurrence of `pat` in `s`. */
  predicate IsFirstOccurrence(s: string, pat: string, i: nat)
  {
    OccursAt(s, pat, i) && forall j :: 0 <= j < i ==> !OccursAt(s, pat, j)
  }

  /** `s.find(pat, i)`, as an option. */
  function FindFrom(s: string, pat: string, i: nat): (r: Option<nat>)
    requires i <= |s|
    ensures r.Some? ==> i <= r.value && OccursAt(s, pat, r.value)
    ensures r.Some? ==> forall j :: i <= j < r.value ==> !OccursAt(s, pat, j)
    ensures r.None? ==> forall j :: i <= j <= |s| ==> !OccursAt(s, pat, j)
    decreases |s| - i
  {
    if OccursAt(s, pat, i) then Some(i)
    else if i == |s| then None
    else FindFrom(s, pat, i + 1)
  }

  /** `s.replace(pat, val, 1)`: the leftmost occurrence of `pat`, if any, is
      replaced by `val`; everything else is kept. An empty `pat` occurs at 0,
      so `val` is then put in front, as Python does. */
  function ReplaceFirst(s: string, pat: string, val: string): (r: string)
    ensures Absent(s, pat) ==> r == s
    ensures !Absent(s, pat) ==>
      && |r| == |s| - |pat| + |val|
      && exists i: nat :: IsFirstOccurrence(s, pat, i) && r == s[..i] + val + s[i + |pat|..]
  {
    match FindFrom(s, pat, 0)
    case None => s
    case Some(i) =>
      assert IsFirstOccurrence(s, pat, i);
      s[..i] + val + s[i + |pat|..]
  }

  /** The leftmost occurrence is unique, so it determines the result. */
  lemma ReplaceAtFirst(s: string, pat: string, val: string, i: nat)
    requires IsFirstOccurrence(s, pat, i)
    ensures ReplaceFirst(s, pat, val) == s[..i] + val + s[i + |pat|..]
  {
    var r := FindFrom(s, pat, 0);
    assert r.Some?;
    assert r.value == i;
  }

  /** The text after applying every `(old, new)` pair in order. */
  function ApplyAll(s: string, pairs: seq<(string, string)>): string
    decreases |pairs|
  {
    if pairs == [] then s else ApplyAll(ReplaceFirst(s, pairs[0].0, pairs[0].1), pairs[1..])
  }

  /** `for old, new in replacements: html = html.replace(old, new, 1)`. */
  method ApplyReplacements(html: string, replacements: seq<(string, string)>) returns (result: string)
    ensures result == ApplyAll(html, replacements)
  {
    result := html;
    var i := 0;
    while i < |replacements|
      invariant 0 <= i <= |replacements|
      invariant ApplyAll(result, replacements[i..]) == ApplyAll(html, replacements)
    {
      var (pat, val) := replacements[i];
      assert replacements[i..][1..] == replacements[i + 1..];
      result := ReplaceFirst(result, pat, val);
      i := i + 1;
    }
    assert replacements[i..] == [];
  }

  // ---------------------------------------------------------------- templates filled in order

  /** `tok` could start at index `j` of `p`: either it occurs there entirely,
      or the rest of `p` from `j` is a beginning of `tok`. */
  predicate StartsAt(p: string, tok: string, j: nat)
    requires j <= |p|
  {
    if |p| - j >= |tok| then p[j..j + |tok|] == tok else p[j..] == tok[..|p| - j]
  }

  /** No occurrence of `tok` can start inside `p`, whatever follows `p`. */
  predicate Inert(p: string, tok: string)
  {
    forall j :: 0 <= j < |p| ==> !StartsAt(p, tok, j)
  }

  predicate InertFor(p: string, toks: seq<string>)
  {
    forall t :: t in toks ==> Inert(p, t)
  }

  /** The template text `first, vals[0], segs[0], vals[1], segs[1], ...`. */
  function Fill(first: string, segs: seq<string>, vals: seq<string>): string
    requires |segs| == |vals|
    decreases |segs|
  {
    if segs == [] then first else Fill(first + vals[0] + segs[0], segs[1..], vals[1..])
  }

  function Olds(pairs: seq<(string, string)>): (r: seq<string>)
    ensures |r| == |pairs| && forall k :: 0 <= k < |pairs| ==> r[k] == pairs[k].0
  {
    seq(|pairs|, k requires 0 <= k < |pairs| => pairs[k].0)
  }

  function News(pairs: seq<(string, string)>): (r: seq<string>)
    ensures |r| == |pairs| && forall k :: 0 <= k < |pairs| ==> r[k] == pairs[k].1
  {
    seq(|pairs|, k requires 0 <= k < |pairs| => pairs[k].1)
  }

  /** The pairs `(olds[k], news[k])`. */
  function Zip(olds: seq<string>, news: seq<string>): (pairs: seq<(string, string)>)
    requires |olds| == |news|
    ensures Olds(pairs) == olds && News(pairs) == news
  {
    seq(|olds|, k requires 0 <= k < |olds| => (olds[k], news[k]))
  }

  /** Ordered substitution fills the slots in order. The template is the
      text `first`, then for each pair its `old` token followed by a segment
      of fixed text. If neither `first` nor any value followed by its segment
      can be mistaken for the start of one of the tokens, the k-th slot
      receives the k-th value. */
  lemma {:induction false} FillInOrder(first: string, segs: seq<string>, pairs: seq<(string, string)>)
    requires |segs| == |pairs|
    requires InertFor(first, Olds(pairs))
    requires forall k :: 0 <= k < |segs| - 1 ==> InertFor(pairs[k].1 + segs[k], Olds(pairs))
    ensures ApplyAll(Fill(first, segs, Olds(pairs)), pairs) == Fill(first, segs, News(pairs))
    decreases |segs|
  {
    if segs != [] {
      var (tok, val) := pairs[0];
      var rest := Fill(segs[0], segs[1..], Olds(pairs)[1..]);
      calc {
        Fill(first, segs, Olds(pairs));
        Fill(first + tok + segs[0], segs[1..], Olds(pairs)[1..]);
        { FillPrefix(first + tok, segs[0], segs[1..], Olds(pairs)[1..]); }
        first + tok + rest;
      }
      assert Inert(first, tok) by { assert tok in Olds(pairs); }
      FirstAtSlot(first, tok, rest);
      ReplaceAtFirst(first + tok + rest, tok, val, |first|);
      assert (first + tok + rest)[..|first|] == first;
      assert (first + tok + rest)[|first| + |tok|..] == rest;
      FillPrefix(first + val, segs[0], segs[1..], Olds(pairs)[1..]);
      assert Olds(pairs)[1..] == Olds(pairs[1..]);
      assert News(pairs)[1..] == News(pairs[1..]);
      var first' := first + val + segs[0];
      assert first' == first + (val + segs[0]);
      forall t | t in Olds(pairs[1..]) ensures Inert(first', t) {
        assert |pairs| > 1;
        assert t in Olds(pairs);
        assert Inert(val + segs[0], t);
        InertConcat(first, val + segs[0], t);
      }
      forall k | 0 <= k < |segs| - 2 ensures InertFor(pairs[1..][k].1 + segs[1..][k], Olds(pairs[1..])) {
        assert pairs[1..][k] == pairs[k + 1] && segs[1..][k] == segs[k + 1];
        forall t | t in Olds(pairs[1..]) ensures Inert(pairs[k + 1].1 + segs[k + 1], t) {
          assert t in Olds(pairs);
        }
      }
      FillInOrder(first', segs[1..], pairs[1..]);
    }
  }

  /** Text after the last slot, placeholders included, is part of the last
      segment. */
  lemma {:induction false} FillTail(first: string, segs: seq<string>, vals: seq<string>, tail: string)
    requires |segs| == |vals| && |segs| > 0
    ensures Fill(first, segs, vals) + tail == Fill(first, segs[|segs| - 1 := segs[|segs| - 1] + tail], vals)
    decreases |segs|
  {
    var n := |segs|;
    var segs' := segs[n - 1 := segs[n - 1] + tail];
    if n == 1 {
      assert segs'[1..] == [] && segs[1..] == [];
      assert first + vals[0] + segs'[0] == first + vals[0] + segs[0] + tail;
    } else {
      assert segs'[0] == segs[0];
      assert segs'[1..] == segs[1..][n - 2 := segs[1..][n - 2] + tail];
      FillTail(first + vals[0] + segs[0], segs[1..], vals[1..], tail);
    }
  }

  /** Placeholders beyond the list's length stay in the text: anything
      following the filled template comes out unchanged. */
  lemma SurplusKept(first: string, segs: seq<string>, pairs: seq<(string, string)>, tail: string)
    requires |segs| == |pairs| && |segs| > 0
    requires InertFor(first, Olds(pairs))
    requires forall k :: 0 <= k < |segs| - 1 ==> InertFor(pairs[k].1 + segs[k], Olds(pairs))
    ensures ApplyAll(Fill(first, segs, Olds(pairs)) + tail, pairs) == Fill(first, segs, News(pairs)) + tail
  {
    var n := |segs|;
    var segs' := segs[n - 1 := segs[n - 1] + tail];
    FillTail(first, segs, Olds(pairs), tail);
    FillTail(first, segs, News(pairs), tail);
    assert forall k :: 0 <= k < n - 1 ==> segs'[k] == segs[k];
    FillInOrder(first, segs', pairs);
  }

  lemma {:induction false} FillPrefix(a: string, b: string, segs: seq<string>, vals: seq<string>)
    requires |segs| == |vals|
    ensures Fill(a + b, segs, vals) == a + Fill(b, segs, vals)
    decreases |segs|
  {
    if segs != [] {
      assert a + b + vals[0] + segs[0] == a + (b + vals[0] + segs[0]);
      FillPrefix(a, b + vals[0] + segs[0], segs[1..], vals[1..]);
    }
  }

  /** A token placed right after an inert prefix is the first occurrence. */
  lemma FirstAtSlot(p: string, tok: string, rest: string)
    requires Inert(p, tok)
    ensures IsFirstOccurrence(p + tok + rest, tok, |p|)
  {
    var s := p + tok + rest;
    assert s[|p|..|p| + |tok|] == tok;
    forall j | 0 <= j < |p| ensures !OccursAt(s, tok, j) {
      assert s == p + (tok + rest);
      OccursStarts(p, tok + rest, tok, j);
    }
  }

  /** An occurrence that starts inside `p` is a start of the token in `p`. */
  lemma OccursStarts(p: string, r: string, tok: string, j: nat)
    requires j < |p|
    ensures OccursAt(p + r, tok, j) ==> StartsAt(p, tok, j)
  {
    var s := p + r;
    if OccursAt(s, tok, j) {
      if |p| - j >= |tok| {
        assert p[j..j + |tok|] == s[j..j + |tok|];
      } else {
        assert p[j..] == s[j..j + |tok|][..|p| - j];
      }
    }
  }

  lemma InertConcat(a: string, b: string, tok: string)
    requires Inert(a, tok) && Inert(b, tok)
    ensures Inert(a + b, tok)
  {
    var s := a + b;
    forall j | 0 <= j < |s| ensures !StartsAt(s, tok, j) {
      if j < |a| {
        StartsPrefix(a, b, tok, j);
      } else {
        assert s[j..] == b[j - |a|..];
        if |s| - j >= |tok| {
          assert s[j..j + |tok|] == b[j - |a|..j - |a| + |tok|];
        }
        assert StartsAt(s, tok, j) == StartsAt(b, tok, j - |a|);
      }
    }
  }

  /** A start of the token inside `a` is one in `a` alone. */
  lemma StartsPrefix(a: string, b: string, tok: string, j: nat)
    requires j < |a|
    ensures StartsAt(a + b, tok, j) ==> StartsAt(a, tok, j)
  {
    var s := a + b;
    if StartsAt(s, tok, j) {
      if |a| - j >= |tok| {
        assert a[j..j + |tok|] == s[j..j + |tok|];
      } else if |s| - j >= |tok| {
        assert a[j..] == s[j..j + |tok|][..|a| - j];
      } else {
        assert a[j..] == s[j..][..|a| - j];
      }
    }
  }

  // ---------------------------------------------------------------- templates filled in any order

  /** Appending one entry adds one to its own count and nothing to others. */
  lemma PrefixCount(s: seq<string>, i: nat, t: string)
    requires i < |s|
    ensures multiset(s[..i + 1])[t] == multiset(s[..i])[t] + if s[i] == t then 1 else 0
  {
    assert s[..i + 1] == s[..i] + [s[i]];
  }

  /** An entry that no other entry equals occurs once. */
  lemma OnlyAt(s: seq<string>, i: nat)
    requires i < |s|
    requires forall j :: 0 <= j < |s| && j != i ==> s[j] != s[i]
    ensures multiset(s[..i])[s[i]] == 0 && multiset(s)[s[i]] == 1
  {
    assert s == s[..i] + [s[i]] + s[i + 1..];
    assert s[i] !in s[..i];
    assert s[i] !in s[i + 1..];
  }

  /** Slot `k` holds the `Rank`-th occurrence of its token, counting from 0. */
  function Rank(slots: seq<string>, k: nat): (c: nat)
    requires k < |slots|
    ensures c < multiset(slots)[slots[k]]
  {
    assert slots == slots[..k] + [slots[k]] + slots[k + 1..];
    multiset(slots[..k])[slots[k]]
  }

  /** The index of the `c`-th occurrence of `t` in `s`, counting from 0. */
  function Nth(s: seq<string>, t: string, c: nat): (i: nat)
    requires c < multiset(s)[t]
    ensures i < |s| && s[i] == t && multiset(s[..i])[t] == c
    decreases |s|
  {
    assert s == [s[0]] + s[1..];
    if s[0] == t && c == 0 then 0
    else
      var i := Nth(s[1..], t, if s[0] == t then c - 1 else c);
      assert s[..i + 1] == [s[0]] + s[1..][..i];
      i + 1
  }

  /** Later occurrences of a token have higher ranks. */
  lemma RankIncreases(s: seq<string>, i: nat, j: nat)
    requires i < |s| && j < |s|
    ensures i < j && s[i] == s[j] ==> Rank(s, i) < Rank(s, j)
  {
    if i < j && s[i] == s[j] {
      assert s[..j] == s[..i] + [s[i]] + s[i + 1..j];
    }
  }

  /** The rank of an occurrence finds it back. */
  lemma NthRank(s: seq<string>, i: nat)
    requires i < |s|
    ensures Nth(s, s[i], Rank(s, i)) == i
  {
    var n := Nth(s, s[i], Rank(s, i));
    RankIncreases(s, n, i);
    RankIncreases(s, i, n);
  }

  /** What each slot holds once every pair is applied: the `c`-th slot of a
      token receives the value of the `c`-th pair for that token. */
  function Filled(slots: seq<string>, pairs: seq<(string, string)>): (vals: seq<string>)
    requires multiset(slots) == multiset(Olds(pairs))
    ensures |vals| == |slots|
  {
    seq(|slots|, k requires 0 <= k < |slots| => pairs[Nth(Olds(pairs), slots[k], Rank(slots, k))].1)
  }

  /** What each slot holds once the first `m` pairs are applied: a slot is
      filled when fewer slots of its token precede it than pairs for that
      token have been applied. */
  function Partly(slots: seq<string>, pairs: seq<(string, string)>, m: nat): (cur: seq<string>)
    requires multiset(slots) == multiset(Olds(pairs)) && m <= |pairs|
    ensures |cur| == |slots|
  {
    seq(|slots|, k requires 0 <= k < |slots| =>
      if Rank(slots, k) < multiset(Olds(pairs)[..m])[slots[k]] then Filled(slots, pairs)[k] else slots[k])
  }

  /** The template split around slot `k`. */
  lemma {:induction false} FillSplit(first: string, segs: seq<string>, vals: seq<string>, k: nat)
    requires |segs| == |vals| && k < |segs|
    ensures Fill(first, segs, vals) ==
      Fill(first, segs[..k], vals[..k]) + vals[k] + Fill(segs[k], segs[k + 1..], vals[k + 1..])
    decreases k
  {
    var first' := first + vals[0] + segs[0];
    if k == 0 {
      FillPrefix(first + vals[0], segs[0], segs[1..], vals[1..]);
    } else {
      FillSplit(first', segs[1..], vals[1..], k - 1);
      assert segs[..k][1..] == segs[1..][..k - 1] && vals[..k][1..] == vals[1..][..k - 1];
      assert segs[1..][k - 1 + 1..] == segs[k + 1..] && vals[1..][k - 1 + 1..] == vals[k + 1..];
    }
  }

  /** A template part made of inert pieces is inert. */
  lemma {:induction false} FillInert(first: string, segs: seq<string>, vals: seq<string>, tok: string)
    requires |segs| == |vals|
    requires Inert(first, tok)
    requires forall j :: 0 <= j < |segs| ==> Inert(vals[j] + segs[j], tok)
    ensures Inert(Fill(first, segs, vals), tok)
    decreases |segs|
  {
    if segs != [] {
      assert first + vals[0] + segs[0] == first + (vals[0] + segs[0]);
      InertConcat(first, vals[0] + segs[0], tok);
      assert forall j :: 0 <= j < |segs| - 1 ==> segs[1..][j] == segs[j + 1] && vals[1..][j] == vals[j + 1];
      FillInert(first + vals[0] + segs[0], segs[1..], vals[1..], tok);
    }
  }

  /** Applying pair `m` fills the one slot whose turn it is: the slot `ks`
      of the pair's token whose rank is the number of earlier pairs for that
      token. Every slot before it already holds its value or holds another
      token. */
  lemma PartlyStep(slots: seq<string>, pairs: seq<(string, string)>, m: nat) returns (ks: nat)
    requires multiset(slots) == multiset(Olds(pairs)) && m < |pairs|
    ensures ks < |slots| && slots[ks] == pairs[m].0
    ensures Partly(slots, pairs, m)[ks] == pairs[m].0
    ensures Partly(slots, pairs, m + 1) == Partly(slots, pairs, m)[ks := pairs[m].1]
    ensures forall j :: 0 <= j < ks ==>
      Partly(slots, pairs, m)[j] == Filled(slots, pairs)[j] || Partly(slots, pairs, m)[j] == slots[j] != pairs[m].0
  {
    var (t, v) := pairs[m];
    var olds := Olds(pairs);
    var filled := Filled(slots, pairs);
    assert olds[m] == t;
    assert olds[..m + 1] == olds[..m] + [t];
    assert olds == olds[..m + 1] + olds[m + 1..];
    var c := multiset(olds[..m])[t];
    ks := Nth(slots, t, c);
    assert Rank(slots, ks) == c;
    NthRank(olds, m);
    assert filled[ks] == v;
    var cur := Partly(slots, pairs, m);
    var next := Partly(slots, pairs, m + 1);
    forall k | 0 <= k < |slots| ensures next[k] == cur[ks := v][k] {
      PartlyAt(slots, pairs, m, k);
      RankIncreases(slots, k, ks);
      RankIncreases(slots, ks, k);
    }
    forall j | 0 <= j < ks ensures cur[j] == filled[j] || cur[j] == slots[j] != t {
      RankIncreases(slots, j, ks);
    }
  }

  /** Pair `m` changes at most the slots of its token whose rank is the
      number of earlier pairs for that token. */
  lemma PartlyAt(slots: seq<string>, pairs: seq<(string, string)>, m: nat, k: nat)
    requires multiset(slots) == multiset(Olds(pairs)) && m < |pairs| && k < |slots|
    ensures Partly(slots, pairs, m + 1)[k] ==
      if slots[k] == pairs[m].0 && Rank(slots, k) == multiset(Olds(pairs)[..m])[slots[k]]
      then Filled(slots, pairs)[k] else Partly(slots, pairs, m)[k]
  {
    var olds := Olds(pairs);
    assert olds[..m + 1] == olds[..m] + [olds[m]];
  }

  /** Replacing the token of slot `ks` when no earlier text can hold a start
      of it fills exactly that slot. */
  lemma ReplaceAtSlot(first: string, segs: seq<string>, cur: seq<string>, ks: nat, v: string)
    requires |segs| == |cur| && ks < |segs|
    requires Inert(first, cur[ks])
    requires forall j :: 0 <= j < ks ==> Inert(cur[j] + segs[j], cur[ks])
    ensures ReplaceFirst(Fill(first, segs, cur), cur[ks], v) == Fill(first, segs, cur[ks := v])
  {
    var t := cur[ks];
    var next := cur[ks := v];
    var p := Fill(first, segs[..ks], cur[..ks]);
    var r := Fill(segs[ks], segs[ks + 1..], cur[ks + 1..]);
    FillSplit(first, segs, cur, ks);
    FillSplit(first, segs, next, ks);
    assert next[..ks] == cur[..ks] && next[ks + 1..] == cur[ks + 1..];
    FillInert(first, segs[..ks], cur[..ks], t);
    FirstAtSlot(p, t, r);
    ReplaceAtFirst(p + t + r, t, v, |p|);
    assert (p + t + r)[..|p|] == p && (p + t + r)[|p| + |t|..] == r;
  }

  lemma FillStep(first: string, segs: seq<string>, slots: seq<string>, pairs: seq<(string, string)>, m: nat)
    requires |segs| == |slots| && multiset(slots) == multiset(Olds(pairs)) && m < |pairs|
    requires InertFor(first, Olds(pairs))
    requires forall k :: 0 <= k < |slots| - 1 ==> InertFor(Filled(slots, pairs)[k] + segs[k], Olds(pairs))
    requires forall k, t :: 0 <= k < |slots| - 1 && t in Olds(pairs) && t != slots[k] ==> Inert(slots[k] + segs[k], t)
    ensures ReplaceFirst(Fill(first, segs, Partly(slots, pairs, m)), pairs[m].0, pairs[m].1)
         == Fill(first, segs, Partly(slots, pairs, m + 1))
  {
    var t := pairs[m].0;
    assert t in Olds(pairs) by {
      assert Olds(pairs)[m] == t;
    }
    var cur := Partly(slots, pairs, m);
    var ks := PartlyStep(slots, pairs, m);
    forall j | 0 <= j < ks ensures Inert(cur[j] + segs[j], t) {
    }
    ReplaceAtSlot(first, segs, cur, ks, pairs[m].1);
  }

  lemma {:induction false} FillFrom(first: string, segs: seq<string>, slots: seq<string>, pairs: seq<(string, string)>, m: nat)
    requires |segs| == |slots| && multiset(slots) == multiset(Olds(pairs)) && m <= |pairs|
    requires InertFor(first, Olds(pairs))
    requires forall k :: 0 <= k < |slots| - 1 ==> InertFor(Filled(slots, pairs)[k] + segs[k], Olds(pairs))
    requires forall k, t :: 0 <= k < |slots| - 1 && t in Olds(pairs) && t != slots[k] ==> Inert(slots[k] + segs[k], t)
    ensures ApplyAll(Fill(first, segs, Partly(slots, pairs, m)), pairs[m..]) == Fill(first, segs, Filled(slots, pairs))
    decreases |pairs| - m
  {
    if m == |pairs| {
      assert pairs[m..] == [];
      assert Olds(pairs)[..m] == Olds(pairs);
      assert Partly(slots, pairs, m) == Filled(slots, pairs);
    } else {
      FillStep(first, segs, slots, pairs, m);
      assert pairs[m..][1..] == pairs[m + 1..];
      FillFrom(first, segs, slots, pairs, m + 1);
    }
  }

  /** Ordered substitution in a template whose slots hold the tokens in any
      order: the `c`-th slot holding a token receives the value of the `c`-th
      pair for that token, provided the slots hold exactly the pairs' tokens
      and no text around a slot (the text before the first slot, a value or a
      not yet replaced token followed by its segment) can be mistaken for the
      start of another token. */
  lemma FillAnyOrder(first: string, segs: seq<string>, slots: seq<string>, pairs: seq<(string, string)>)
    requires |segs| == |slots| && multiset(slots) == multiset(Olds(pairs))
    requires InertFor(first, Olds(pairs))
    requires forall k :: 0 <= k < |slots| - 1 ==> InertFor(Filled(slots, pairs)[k] + segs[k], Olds(pairs))
    requires forall k, t :: 0 <= k < |slots| - 1 && t in Olds(pairs) && t != slots[k] ==> Inert(slots[k] + segs[k], t)
    ensures ApplyAll(Fill(first, segs, slots), pairs) == Fill(first, segs, Filled(slots, pairs))
  {
    assert Partly(slots, pairs, 0) == slots by {
      assert Olds(pairs)[..0] == [];
    }
    assert pairs[0..] == pairs;
    FillFrom(first, segs, slots, pairs, 0);
  }
}
