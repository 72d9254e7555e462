/** Value-level specification of the List widget's entry bookkeeping
    (widget/list.go): what the write-index loops of RemoveEntry compute,
    how a detached child leaves its container, and how selection follows
    the slots that UpdateEntries overwrites.  The class in list.dfy is
    proved against these functions. */
module ListSpec {

  /** A value or nothing; `None` stands for Go's nil interface value. */
  datatype Option<T> = None | Some(value: T)

  /** The two visual states a row button can be in. */
  datatype Style = Unselected | Selected

  /** The style the restyling loop gives a row holding `entry` when
      `selection` is the selected entry. */
  function StyleFor<E(==)>(entry: E, selection: Option<E>): Style
  {
    if Some(entry) == selection then Selected else Unselected
  }

  /** The labels a label function gives a sequence of entries. */
  function LabelsFor<E>(es: seq<E>, labelOf: E -> string): seq<string>
  {
    seq(|es|, i requires 0 <= i < |es| => labelOf(es[i]))
  }

  /** The styles the restyling loop gives rows holding `es`. */
  function StylesFor<E(==)>(es: seq<E>, selection: Option<E>): seq<Style>
  {
    seq(|es|, i requires 0 <= i < |es| => StyleFor(es[i], selection))
  }

  /** `n` rows in the unselected style. */
  function AllUnselected(n: nat): seq<Style>
  {
    seq(n, _ => Unselected)
  }

  /** No value occurs twice in `s`. */
  ghost predicate Distinct<T>(s: seq<T>)
  {
    forall i, j :: 0 <= i < j < |s| ==> s[i] != s[j]
  }

  /** `s` with the element at index `k` taken out, the rest in order. */
  function DropSlot<T>(s: seq<T>, k: nat): (r: seq<T>)
    requires k < |s|
    ensures |r| == |s| - 1
    ensures forall y :: y in r ==> y in s
    ensures forall i :: 0 <= i < k ==> r[i] == s[i]
    ensures forall i :: k <= i < |r| ==> r[i] == s[i + 1]
  {
    s[..k] + s[k + 1..]
  }

  /** Reference definition: every element of `s` that differs from `x`,
      in their original order. */
  function Filter<E(==)>(s: seq<E>, x: E): (r: seq<E>)
    ensures |r| == |s| - multiset(s)[x]
    ensures x !in r
  {
    if s == [] then []
    else
      assert s == [s[0]] + s[1..];
      if s[0] == x then Filter(s[1..], x)
    else [s[0]] + Filter(s[1..], x)
  }

  /** What RemoveEntry's first loop leaves behind: the entries it kept
      (written to the front of the slice) and the write index `slot` it
      recorded at the most recent match, or -1 if nothing matched. */
  datatype Compacted<E> = Compacted(kept: seq<E>, slot: int)

  /** The first loop of RemoveEntry run over `s`, one element at a time
      from the front (so defined on the prefix without the last element). */
  function Compact<E(==)>(s: seq<E>, x: E): (r: Compacted<E>)
    ensures (r.slot == -1) == (x !in s)
    decreases |s|
  {
    if s == [] then Compacted([], -1)
    else
      var c := Compact(s[..|s| - 1], x);
      if s[|s| - 1] != x then Compacted(c.kept + [s[|s| - 1]], c.slot)
      else Compacted(c.kept, |c.kept|)
  }

  /** The first loop keeps one entry for each entry different from `x`,
      none equal to `x`, and records a slot within the kept entries
      exactly when `x` occurs. */
  lemma {:induction false} CompactBounds<E>(s: seq<E>, x: E)
    ensures |Compact(s, x).kept| == |s| - multiset(s)[x]
    ensures x !in Compact(s, x).kept
    ensures -1 <= Compact(s, x).slot <= |Compact(s, x).kept|
    ensures (Compact(s, x).slot == -1) <==> x !in s
    decreases |s|
  {
    if s != [] {
      var p := s[..|s| - 1];
      assert s == p + [s[|s| - 1]];
      CompactBounds(p, x);
    }
  }

  /** One more element read: Compact over the first i+1 elements is one
      step of the loop after Compact over the first i. */
  lemma CompactStep<E>(s: seq<E>, x: E, i: nat)
    requires i < |s|
    ensures var c := Compact(s[..i], x);
      Compact(s[..i + 1], x) ==
        if s[i] != x then Compacted(c.kept + [s[i]], c.slot) else Compacted(c.kept, |c.kept|)
  {
    assert s[..i + 1][..i] == s[..i];
  }

  /** Writing `e` at a write index `n` that trails the read index `i`
      extends the written prefix by `e` and leaves the unread part alone. */
  lemma WriteStep<T>(xs: seq<T>, n: nat, i: nat, e: T)
    requires n <= i < |xs|
    ensures xs[n := e][..n + 1] == xs[..n] + [e]
    ensures xs[n := e][i + 1..] == xs[i + 1..]
  {
  }

  lemma {:induction false} FilterAppend<E>(a: seq<E>, y: E, x: E)
    ensures Filter(a + [y], x) == Filter(a, x) + (if y == x then [] else [y])
    decreases |a|
  {
    if a == [] {
      assert a + [y] == [y];
    } else {
      assert (a + [y])[1..] == a[1..] + [y];
      FilterAppend(a[1..], y, x);
    }
  }

  /** The entries RemoveEntry keeps are exactly those different from the
      removed value, in their original order. */
  lemma {:induction false} CompactKeepsFilter<E>(s: seq<E>, x: E)
    ensures Compact(s, x).kept == Filter(s, x)
    decreases |s|
  {
    if s != [] {
      var p := s[..|s| - 1];
      assert s == p + [s[|s| - 1]];
      CompactKeepsFilter(p, x);
      FilterAppend(p, s[|s| - 1], x);
    }
  }

  /** Removing a value that does not occur keeps everything and records no
      slot. */
  lemma {:induction false} CompactAbsent<E>(s: seq<E>, x: E)
    requires x !in s
    ensures Compact(s, x) == Compacted(s, -1)
    decreases |s|
  {
    if s != [] {
      var p := s[..|s| - 1];
      assert s == p + [s[|s| - 1]];
      CompactAbsent(p, x);
    }
  }

  /** A value that occurs exactly once, at index `k`, is removed from that
      slot alone, and the recorded slot is `k`. */
  lemma {:induction false} CompactSingle<E>(s: seq<E>, x: E, k: nat)
    requires k < |s| && s[k] == x
    requires multiset(s)[x] == 1
    ensures Compact(s, x) == Compacted(DropSlot(s, k), k)
    decreases |s|
  {
    var p := s[..|s| - 1];
    var last := s[|s| - 1];
    assert s == p + [last];
    if k == |s| - 1 {
      assert multiset(p)[x] == 0;
      CompactAbsent(p, x);
      assert DropSlot(s, k) == p;
    } else {
      assert p[k] == x;
      assert multiset(p)[x] >= 1;
      assert multiset(s)[x] == multiset(p)[x] + multiset([last])[x];
      CompactSingle(p, x, k);
      assert DropSlot(s, k) == DropSlot(p, k) + [last];
    }
  }

  /** With duplicates, the first loop drops every copy while the recorded
      slot is the write index at the LAST copy: the number of other
      entries before it.  The three slices then lose different amounts. */
  lemma {:induction false} CompactDuplicates<E>(s: seq<E>, x: E)
    requires multiset(s)[x] >= 2
    ensures 0 <= Compact(s, x).slot
    ensures |Compact(s, x).kept| + 2 <= |s|
    ensures Compact(s, x).slot <= |s| - 2
  {
    CompactBounds(s, x);
    assert x in multiset(s);
  }

  /** The recorded slot is the index of the last copy of `x` less the
      number of copies before it. */
  lemma {:induction false} CompactSlotAtLast<E>(s: seq<E>, x: E, k: nat)
    requires k < |s| && s[k] == x && x !in s[k + 1..]
    ensures Compact(s, x).slot == k - multiset(s[..k])[x]
    decreases |s|
  {
    var p := s[..|s| - 1];
    assert s == p + [s[|s| - 1]];
    if k == |s| - 1 {
      CompactBounds(p, x);
    } else {
      assert s[|s| - 1] in s[k + 1..];
      assert p[k + 1..] == s[k + 1..|s| - 1];
      assert p[..k] == s[..k];
      CompactSlotAtLast(p, x, k);
    }
  }

  /** Removing `a` from `[a, b, a]` keeps `[b]`, not `[b, a]`, and records
      slot 1: the rows lose the button of `b` and keep the first `a`'s. */
  lemma CompactABA<E>(a: E, b: E)
    requires a != b
    ensures Compact([a, b, a], a) == Compacted([b], 1)
  {
    assert [a, b, a][..2] == [a, b] && [a, b][..1] == [a] && [a][..0] == [];
    assert Compact([a], a) == Compacted([], 0);
    assert Compact([a, b], a) == Compacted([b], 0);
  }

  /** Every value in a distinct sequence occurs exactly once. */
  lemma {:induction false} DistinctOnce<T>(s: seq<T>, k: nat)
    requires Distinct(s) && k < |s|
    ensures multiset(s)[s[k]] == 1
    decreases |s|
  {
    var p := s[..|s| - 1];
    var last := s[|s| - 1];
    assert s == p + [last];
    assert Distinct(p);
    if k == |s| - 1 {
      assert last !in p;
      assert multiset(p)[last] == 0;
    } else {
      DistinctOnce(p, k);
      assert p[k] == s[k];
    }
  }

  /** Removing the front entry of a list of distinct entries removes exactly
      slot 0. */
  lemma CompactFrontDistinct<E>(s: seq<E>)
    requires Distinct(s) && |s| > 0
    ensures Compact(s, s[0]) == Compacted(s[1..], 0)
  {
    DistinctOnce(s, 0);
    CompactSingle(s, s[0], 0);
  }

  /** The entries left after UpdateEntries' first loop, which calls
      RemoveEntryAt(0) while more than `m` entries remain; each call drops
      every entry equal to the front one. */
  function Shrink<E(==)>(s: seq<E>, m: nat): (r: seq<E>)
    ensures |r| <= m
    ensures |s| <= m ==> r == s
    ensures |r| <= |s|
    decreases |s|
  {
    if |s| <= m then s
    else
      assert s[0] in multiset(s);
      Shrink(Filter(s, s[0]), m)
  }

  /** One round of Shrink: the entries equal to the front one go. */
  lemma ShrinkUnfold<E>(s: seq<E>, m: nat)
    requires |s| > m
    ensures Shrink(s, m) == Shrink(Filter(s, s[0]), m)
  {
  }

  /** One round of Shrink on distinct entries drops just the front one. */
  lemma ShrinkFrontStep<E>(s: seq<E>, m: nat)
    requires Distinct(s) && |s| > m
    ensures Shrink(s, m) == Shrink(s[1..], m) && Distinct(s[1..])
  {
    CompactFrontDistinct(s);
    CompactKeepsFilter(s, s[0]);
    DistinctSuffix(s, 1);
  }

  /** Shrinking distinct entries drops exactly the front ones, keeping the
      last `m` in order. */
  lemma {:induction false} ShrinkDistinct<E>(s: seq<E>, m: nat)
    requires Distinct(s)
    ensures Shrink(s, m) == if |s| <= m then s else s[|s| - m..]
    decreases |s|
  {
    if |s| > m {
      var t := s[1..];
      ShrinkFrontStep(s, m);
      ShrinkDistinct(t, m);
      if |t| <= m {
        assert |s| - m == 1;
      } else {
        SuffixOfSuffix(s, 1, |t| - m);
      }
    }
  }

  /** Labelling commutes with taking a slot out. */
  lemma LabelsForDrop<E>(es: seq<E>, labelOf: E -> string, k: nat)
    requires k < |es|
    ensures LabelsFor(DropSlot(es, k), labelOf) == DropSlot(LabelsFor(es, labelOf), k)
  {
  }

  /** Removing a value that occurs at most once keeps the remaining
      labels in step with the remaining entries: nothing changes when it
      is absent, and otherwise the labels lose exactly the slot
      RemoveEntry's first loop records. */
  lemma RemoveLabels<E>(s: seq<E>, x: E, labelOf: E -> string)
    requires multiset(s)[x] <= 1
    ensures Compact(s, x).slot == -1 ==> LabelsFor(Compact(s, x).kept, labelOf) == LabelsFor(s, labelOf)
    ensures Compact(s, x).slot != -1 ==>
      0 <= Compact(s, x).slot < |s| &&
      LabelsFor(Compact(s, x).kept, labelOf) == DropSlot(LabelsFor(s, labelOf), Compact(s, x).slot)
  {
    if x in s {
      assert x in multiset(s);
      var k :| 0 <= k < |s| && s[k] == x;
      CompactSingle(s, x, k);
      LabelsForDrop(s, labelOf, k);
    } else {
      CompactAbsent(s, x);
    }
  }

  /** Rows that showed the entries keep showing them when a value that
      occurs at most once is removed: the rows lose the slot RemoveEntry's
      first loop records, or nothing when that loop finds no match. */
  lemma RemoveKeepsAligned<E>(s: seq<E>, x: E, labelOf: E -> string, t0: seq<string>, t1: seq<string>)
    requires multiset(s)[x] <= 1
    requires t0 == LabelsFor(s, labelOf)
    requires Compact(s, x).slot == -1 ==> t1 == t0
    requires Compact(s, x).slot != -1 ==>
      0 <= Compact(s, x).slot < |t0| && t1 == DropSlot(t0, Compact(s, x).slot)
    ensures t1 == LabelsFor(Compact(s, x).kept, labelOf)
  {
    RemoveLabels(s, x, labelOf);
  }

  /** Relabelling slot `i` of rows whose first `i` labels are already
      those of `ns` extends that prefix by one. */
  lemma LabelsForStep<E>(ns: seq<E>, labelOf: E -> string, t: seq<string>, i: nat)
    requires i < |ns| && i < |t|
    ensures (LabelsFor(ns[..i], labelOf) + t[i..])[i := labelOf(ns[i])] ==
            LabelsFor(ns[..i + 1], labelOf) + t[i + 1..]
  {
  }

  /** Overwriting slot `i` of a sequence whose first `i` elements already
      come from `ns` extends that prefix by one. */
  lemma PrefixStep<E>(ns: seq<E>, olds: seq<E>, i: nat)
    requires i < |olds| <= |ns|
    ensures (ns[..i] + olds[i..])[i] == olds[i]
    ensures (ns[..i] + olds[i..])[i := ns[i]] == ns[..i + 1] + olds[i + 1..]
  {
  }

  /** Labelling an appended entry appends its label. */
  lemma LabelsForAppend<E>(es: seq<E>, labelOf: E -> string, x: E)
    ensures LabelsFor(es + [x], labelOf) == LabelsFor(es, labelOf) + [labelOf(x)]
  {
  }

  /** Labelling a sequence labels its two halves. */
  lemma LabelsForSplit<E>(es: seq<E>, labelOf: E -> string, k: nat)
    requires k <= |es|
    ensures LabelsFor(es, labelOf) == LabelsFor(es[..k], labelOf) + LabelsFor(es[k..], labelOf)
  {
  }

  /** Whichever way UpdateEntries goes, rows that showed the old entries
      and then got the relabelling it states show the new entries. */
  lemma UpdateAligned<E>(es: seq<E>, ns: seq<E>, labelOf: E -> string, t: seq<string>)
    requires |es| <= |ns| ==>
      t == LabelsFor(ns[..|es|], labelOf) + LabelsFor(es, labelOf)[|es|..] + LabelsFor(ns[|es|..], labelOf)
    requires |es| > |ns| ==> t == LabelsFor(ns, labelOf) + LabelsFor(es, labelOf)[|es|..]
    ensures t == LabelsFor(ns, labelOf)
  {
    assert LabelsFor(es, labelOf)[|es|..] == [];
    if |es| <= |ns| {
      LabelsForSplit(ns, labelOf, |es|);
    }
  }

  /** A suffix of a suffix is a suffix. */
  lemma SuffixOfSuffix<T>(s: seq<T>, a: nat, b: nat)
    requires a + b <= |s|
    ensures s[a..][b..] == s[a + b..]
  {
  }

  /** Appending entry `i` of `ns` extends the appended part by its label
      and one unselected style. */
  lemma GrowStep<E>(ns: seq<E>, labelOf: E -> string, n0: nat, i: nat)
    requires n0 <= i < |ns|
    ensures LabelsFor(ns[n0..i + 1], labelOf) == LabelsFor(ns[n0..i], labelOf) + [labelOf(ns[i])]
    ensures AllUnselected(i + 1 - n0) == AllUnselected(i - n0) + [Unselected]
    ensures ns[..i + 1] == ns[..i] + [ns[i]]
  {
    assert ns[n0..i + 1] == ns[n0..i] + [ns[i]];
    LabelsForAppend(ns[n0..i], labelOf, ns[i]);
  }

  /** Rows that showed `s` and had each label of an entry equal to
      `current` replaced by the label of `x` show the substituted entries. */
  lemma SubstituteLabels<E>(s: seq<E>, current: E, x: E, labelOf: E -> string, t0: seq<string>, t1: seq<string>)
    requires t0 == LabelsFor(s, labelOf) && |t1| == |s|
    requires forall i :: 0 <= i < |s| ==> t1[i] == if s[i] == current then labelOf(x) else t0[i]
    ensures t1 == LabelsFor(Substitute(s, current, x), labelOf)
  {
  }

  /** Dropping the front of a suffix leaves the next suffix. */
  lemma SuffixStep<T>(s: seq<T>, d: nat)
    requires d < |s|
    ensures s[d..][1..] == s[d + 1..]
  {
  }

  /** A suffix of a distinct sequence is distinct. */
  lemma DistinctSuffix<T>(s: seq<T>, k: nat)
    requires Distinct(s) && k <= |s|
    ensures Distinct(s[k..])
  {
  }

  /** ReplaceEntry's effect on the entries: every element equal to
      `current` becomes `x`, the others stay. */
  function Substitute<E(==)>(s: seq<E>, current: E, x: E): (r: seq<E>)
    ensures |r| == |s|
    ensures current != x ==> current !in r
  {
    seq(|s|, i requires 0 <= i < |s| => if s[i] == current then x else s[i])
  }

  /** After substituting, `current` is gone (unless it is `x` itself) and
      `x` occurs once for each earlier `x` and each earlier `current`. */
  lemma {:induction false} SubstituteCounts<E>(s: seq<E>, current: E, x: E)
    requires current != x
    ensures |Substitute(s, current, x)| == |s|
    ensures current !in Substitute(s, current, x)
    ensures multiset(Substitute(s, current, x))[x] == multiset(s)[x] + multiset(s)[current]
    decreases |s|
  {
    if s != [] {
      var p := s[..|s| - 1];
      var last := s[|s| - 1];
      assert s == p + [last];
      SubstituteCounts(p, current, x);
      var y := if last == current then x else last;
      assert Substitute(s, current, x) == Substitute(p, current, x) + [y];
    }
  }

  /** Taking out one slot keeps a distinct sequence distinct. */
  lemma DropSlotDistinct<T>(s: seq<T>, k: nat)
    requires Distinct(s) && k < |s|
    ensures Distinct(DropSlot(s, k))
  {
    var r := DropSlot(s, k);
    forall i, j | 0 <= i < j < |r| ensures r[i] != r[j] {
      var i' := if i < k then i else i + 1;
      var j' := if j < k then j else j + 1;
      assert r[i] == s[i'] && r[j] == s[j'];
    }
  }

  /** The content container's removal of a child: the first occurrence of
      `child` leaves its children, nothing else changes. */
  function DetachFirst<T(==)>(children: seq<T>, child: T): (r: seq<T>)
    ensures child in children ==> |r| == |children| - 1
    ensures child !in children ==> r == children
    ensures forall y :: y in r ==> y in children
  {
    if children == [] then []
    else if children[0] == child then children[1..]
    else [children[0]] + DetachFirst(children[1..], child)
  }

  /** In a list of distinct children, detaching the child at index `k`
      takes out exactly slot `k`. */
  lemma {:induction false} DetachDistinct<T>(children: seq<T>, k: nat)
    requires Distinct(children) && k < |children|
    ensures DetachFirst(children, children[k]) == DropSlot(children, k)
    decreases |children|
  {
    if k > 0 {
      var t := children[1..];
      DistinctSuffix(children, 1);
      assert children[0] != children[k];
      DetachDistinct(t, k - 1);
      assert t[k - 1] == children[k];
      DropSlotTail(children, k);
    }
  }

  /** Past the front, a slot is dropped from the tail. */
  lemma DropSlotTail<T>(s: seq<T>, k: nat)
    requires 0 < k < |s|
    ensures DropSlot(s, k) == [s[0]] + DropSlot(s[1..], k - 1)
  {
    assert s[1..][..k - 1] == s[1..k];
    assert s[1..][k..] == s[k + 1..];
  }

  /** The selection after an entry equal to `current` is replaced by
      `x`: a selection of the replaced value moves to the new one. */
  function Follow<E(==)>(selection: Option<E>, current: E, x: E): (r: Option<E>)
    ensures r == selection || r == Some(x)
    ensures selection == Some(current) ==> r == Some(x)
    ensures selection != Some(current) ==> r == selection
  {
    if selection == Some(current) then Some(x) else selection
  }

  /** The selected entry after ReplaceEntryAt(i, news[i]) has been
      applied to the slots i = 0, 1, ... n-1 in turn, as UpdateEntries
      does, each step following the entry slot i held. */
  function Track<E(==)>(selection: Option<E>, olds: seq<E>, news: seq<E>, n: nat): (r: Option<E>)
    requires n <= |olds| <= |news|
    ensures r != selection ==> exists i :: 0 <= i < n && r == Some(news[i])
    decreases n
  {
    if n == 0 then selection
    else Follow(Track(selection, olds, news, n - 1), olds[n - 1], news[n - 1])
  }

  /** A selection that matches none of the first `n` old entries is left
      alone. */
  lemma {:induction false} TrackUnmatched<E>(selection: Option<E>, olds: seq<E>, news: seq<E>, n: nat)
    requires n <= |olds| <= |news|
    requires forall i :: 0 <= i < n ==> selection != Some(olds[i])
    ensures Track(selection, olds, news, n) == selection
    decreases n
  {
    if n > 0 {
      TrackUnmatched(selection, olds, news, n - 1);
    }
  }

  /** With distinct old entries, a selection on slot `k` follows the slot
      to its new value, provided that new value is not itself one of the
      old values overwritten after slot `k`. */
  lemma {:induction false} TrackFollowsSlot<E>(olds: seq<E>, news: seq<E>, k: nat, n: nat)
    requires k < n <= |olds| <= |news|
    requires Distinct(olds)
    requires forall j :: k < j < n ==> news[k] != olds[j]
    ensures Track(Some(olds[k]), olds, news, n) == Some(news[k])
    decreases n
  {
    if n == k + 1 {
      TrackUnmatched(Some(olds[k]), olds, news, k);
    } else {
      TrackFollowsSlot(olds, news, k, n - 1);
    }
  }

  /** When an overwritten value equals an old value further on, the
      selection moves on with it: selecting A in [A, B] and updating to
      [B, C] ends with C selected although slot 0 now holds B. */
  lemma TrackChains<E>(a: E, b: E, c: E)
    requires a != b
    ensures Track(Some(a), [a, b], [b, c], 2) == Some(c)
  {
    assert Track(Some(a), [a, b], [b, c], 1) == Some(b);
  }
}
