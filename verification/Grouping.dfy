/**
  The grouping step of a project check: the project's source files are cut
  into groups that share the same preprocessor setup, so that cppcheck can
  be run once per group. Two files share a setup when their macros, macros
  to undefine and include paths contain the same elements and they belong to
  the same project.
 */
module Grouping {

  import opened Text

  /** The four values of a source file the grouping compares, and its path. */
  datatype GroupedFile = GroupedFile(
    path: string,
    macros: seq<string>,
    macrosToUndefine: seq<string>,
    includePaths: seq<string>,
    projectName: string)

  /** `SourceFilesWithConfiguration`: a configuration and its files in the
      order they were added. */
  datatype Group<C> = Group(configuration: C, files: seq<GroupedFile>)

  /** `a.All(b.Contains) && b.All(a.Contains)`. */
  predicate SameElements(a: seq<string>, b: seq<string>) {
    (forall x :: x in a ==> x in b) && (forall x :: x in b ==> x in a)
  }

  /** The test of the inner grouping loop, `other` against `template`.
      `MatchesIffSameKey` states what it means. */
  predicate Matches(other: GroupedFile, template: GroupedFile) {
    && SameElements(other.macros, template.macros)
    && SameElements(other.macrosToUndefine, template.macrosToUndefine)
    && SameElements(other.includePaths, template.includePaths)
    && other.projectName == template.projectName
  }

  datatype Key = Key(macros: set<string>, macrosToUndefine: set<string>, includePaths: set<string>, projectName: string)

  function Elements(s: seq<string>): set<string> {
    set x | x in s
  }

  function KeyOf(f: GroupedFile): Key {
    Key(Elements(f.macros), Elements(f.macrosToUndefine), Elements(f.includePaths), f.projectName)
  }

  lemma SameElementsIffSameSet(a: seq<string>, b: seq<string>)
    ensures SameElements(a, b) <==> Elements(a) == Elements(b)
  {
    if Elements(a) == Elements(b) {
      assert forall x :: x in a <==> x in Elements(a);
    }
  }

  /** Matching compares the files' element sets and project names, so it is
      an equivalence: order and repeats in the lists make no difference. */
  lemma MatchesIffSameKey(other: GroupedFile, template: GroupedFile)
    ensures Matches(other, template) <==> KeyOf(other) == KeyOf(template)
  {
    SameElementsIffSameSet(other.macros, template.macros);
    SameElementsIffSameSet(other.macrosToUndefine, template.macrosToUndefine);
    SameElementsIffSameSet(other.includePaths, template.includePaths);
  }

  // ---------------------------------------------------------------------------
  // The reference grouping

  function Reverse<T>(s: seq<T>): (r: seq<T>)
    ensures |r| == |s|
  {
    seq(|s|, i requires 0 <= i < |s| => s[|s| - 1 - i])
  }

  /** The files of `xs` that match `t`, in order. */
  function Matching(t: GroupedFile, xs: seq<GroupedFile>): seq<GroupedFile>
    decreases |xs|
  {
    if |xs| == 0 then []
    else if Matches(xs[|xs| - 1], t) then Matching(t, xs[..|xs| - 1]) + [xs[|xs| - 1]]
    else Matching(t, xs[..|xs| - 1])
  }

  /** The files of `xs` that do not match `t`, in order. */
  function NonMatching(t: GroupedFile, xs: seq<GroupedFile>): (r: seq<GroupedFile>)
    ensures |r| <= |xs|
    decreases |xs|
  {
    if |xs| == 0 then []
    else if Matches(xs[|xs| - 1], t) then NonMatching(t, xs[..|xs| - 1])
    else NonMatching(t, xs[..|xs| - 1]) + [xs[|xs| - 1]]
  }

  /** The groups in the order they are formed: the first file is a template,
      its group is it and every later file matching it, and the rest are
      grouped the same way. */
  function GroupSpec(files: seq<GroupedFile>): seq<seq<GroupedFile>>
    decreases |files|
  {
    if |files| == 0 then []
    else
      var t := files[0];
      [[t] + Matching(t, files[1..])] + GroupSpec(NonMatching(t, files[1..]))
  }

  // ---------------------------------------------------------------------------
  // The grouping loop

  lemma ReverseAppend(xs: seq<GroupedFile>, e: GroupedFile)
    ensures Reverse(xs + [e]) == [e] + Reverse(xs)
  {
  }

  lemma ReverseReverse(xs: seq<GroupedFile>)
    ensures Reverse(Reverse(xs)) == xs
  {
  }

  /** Taking the last element off a list takes the first off its reverse. */
  lemma ReverseInit(w: seq<GroupedFile>)
    requires |w| > 0
    ensures Reverse(w)[0] == w[|w| - 1]
    ensures Reverse(w[..|w| - 1]) == Reverse(w)[1..]
  {
  }

  /** Extending the filtered prefix by one file. */
  lemma FilterStep(t: GroupedFile, xs: seq<GroupedFile>, j: int)
    requires 0 <= j < |xs|
    ensures Matches(xs[j], t) ==> Matching(t, xs[..j + 1]) == Matching(t, xs[..j]) + [xs[j]]
    ensures Matches(xs[j], t) ==> NonMatching(t, xs[..j + 1]) == NonMatching(t, xs[..j])
    ensures !Matches(xs[j], t) ==> Matching(t, xs[..j + 1]) == Matching(t, xs[..j])
    ensures !Matches(xs[j], t) ==> NonMatching(t, xs[..j + 1]) == NonMatching(t, xs[..j]) + [xs[j]]
  {
    var seen := xs[..j + 1];
    assert seen[..j] == xs[..j] && seen[j] == xs[j];
  }

  lemma RemoveAt(w: seq<GroupedFile>, i: int, tail: seq<GroupedFile>)
    requires 0 <= i < |w|
    ensures var v := w[..i + 1] + tail;
            && v[i] == w[i]
            && v[..i] + v[i + 1..] == w[..i] + tail
            && v == w[..i] + ([w[i]] + tail)
  {
  }

  /** The inner loop: from the back of the reversed list `w0` to its front
      (so in project order), every file matching the template joins the
      group and leaves the list. */
  method CollectMatching(template: GroupedFile, w0: seq<GroupedFile>)
    returns (group: seq<GroupedFile>, work: seq<GroupedFile>)
    ensures group == [template] + Matching(template, Reverse(w0))
    ensures work == Reverse(NonMatching(template, Reverse(w0)))
  {
    var r0 := Reverse(w0);
    group := [template];
    work := w0;
    var i := |work| - 1;
    while i >= 0
      invariant -1 <= i < |w0|
      invariant work == w0[..i + 1] + Reverse(NonMatching(template, r0[..|w0| - 1 - i]))
      invariant group == [template] + Matching(template, r0[..|w0| - 1 - i])
      decreases i + 1
    {
      var j := |w0| - 1 - i;
      var other := work[i];
      assert other == w0[i] == r0[j];
      FilterStep(template, r0, j);
      RemoveAt(w0, i, Reverse(NonMatching(template, r0[..j])));
      if Matches(other, template) {
        group := group + [other];
        work := work[..i] + work[i + 1..];
      } else {
        ReverseAppend(NonMatching(template, r0[..j]), other);
      }
      i := i - 1;
    }
    assert r0[..|w0|] == r0;
  }

  /** The grouping loop of `checkProjectsAsync` for one project, over the
      project's files in the order the project lists them. The list is
      reversed so that templates are taken from its end and matching files
      removed from the back. `addOrUpdateFile` is taken to append. */
  method GroupFiles<C>(config: C, files: seq<GroupedFile>) returns (groups: seq<Group<C>>)
    ensures var spec := GroupSpec(files);
            |groups| == |spec| &&
            forall k :: 0 <= k < |groups| ==> groups[k] == Group(config, spec[k])
  {
    var work := Reverse(files);
    ReverseReverse(files);
    groups := [];
    while |work| > 0
      invariant var spec := GroupSpec(files);
                && |groups| <= |spec|
                && (forall k :: 0 <= k < |groups| ==> groups[k] == Group(config, spec[k]))
                && GroupSpec(Reverse(work)) == spec[|groups|..]
      decreases |work|
    {
      ghost var remaining := Reverse(work);
      var template := work[|work| - 1];
      var rest := work[..|work| - 1];
      ReverseInit(work);
      var group;
      group, work := CollectMatching(template, rest);
      ReverseReverse(NonMatching(template, remaining[1..]));
      ghost var spec := GroupSpec(files);
      assert GroupSpec(remaining) == [group] + GroupSpec(Reverse(work));
      DropCons(spec, |groups|, group, GroupSpec(Reverse(work)));
      if |group| > 0 {
        groups := groups + [Group(config, group)];
      }
    }
  }

  // ---------------------------------------------------------------------------
  // What the grouping guarantees

  /** The files of `xs` whose key is `k`, in order. */
  function WithKey(xs: seq<GroupedFile>, k: Key): seq<GroupedFile>
    decreases |xs|
  {
    if |xs| == 0 then []
    else if KeyOf(xs[|xs| - 1]) == k then WithKey(xs[..|xs| - 1], k) + [xs[|xs| - 1]]
    else WithKey(xs[..|xs| - 1], k)
  }

  function Flatten(groups: seq<seq<GroupedFile>>): seq<GroupedFile>
    decreases |groups|
  {
    if |groups| == 0 then [] else groups[0] + Flatten(groups[1..])
  }

  lemma {:induction false} FiltersAppend(t: GroupedFile, k: Key, a: seq<GroupedFile>, b: seq<GroupedFile>)
    ensures Matching(t, a + b) == Matching(t, a) + Matching(t, b)
    ensures NonMatching(t, a + b) == NonMatching(t, a) + NonMatching(t, b)
    ensures WithKey(a + b, k) == WithKey(a, k) + WithKey(b, k)
    decreases |b|
  {
    if |b| == 0 {
      AppendEmpty(a);
      AppendEmpty(Matching(t, a));
      AppendEmpty(NonMatching(t, a));
      AppendEmpty(WithKey(a, k));
    } else {
      var n := |b| - 1;
      var x := b[n];
      TakeAppend(a, b, n);
      assert (a + b)[|a + b| - 1] == x;
      FiltersAppend(t, k, a, b[..n]);
      AppendAssoc(Matching(t, a), Matching(t, b[..n]), [x]);
      AppendAssoc(NonMatching(t, a), NonMatching(t, b[..n]), [x]);
      AppendAssoc(WithKey(a, k), WithKey(b[..n], k), [x]);
    }
  }

  /** Matching and not matching split a list without loss. */
  lemma {:induction false} MatchingSplits(t: GroupedFile, xs: seq<GroupedFile>)
    ensures multiset(Matching(t, xs)) + multiset(NonMatching(t, xs)) == multiset(xs)
    decreases |xs|
  {
    if |xs| > 0 {
      var n := |xs| - 1;
      MatchingSplits(t, xs[..n]);
      SplitLast(xs);
    }
  }

  /** The files matching `t` are exactly those with `t`'s key. */
  lemma {:induction false} MatchingIsWithKey(t: GroupedFile, xs: seq<GroupedFile>)
    ensures Matching(t, xs) == WithKey(xs, KeyOf(t))
    decreases |xs|
  {
    if |xs| > 0 {
      MatchingIsWithKey(t, xs[..|xs| - 1]);
      MatchesIffSameKey(xs[|xs| - 1], t);
    }
  }

  /** The files that do not match `t` come from `xs` and all have another key. */
  lemma {:induction false} NonMatchingKeys(t: GroupedFile, xs: seq<GroupedFile>)
    ensures forall x :: x in NonMatching(t, xs) ==> x in xs && KeyOf(x) != KeyOf(t)
    decreases |xs|
  {
    if |xs| > 0 {
      var n := |xs| - 1;
      NonMatchingKeys(t, xs[..n]);
      MatchesIffSameKey(xs[n], t);
      assert forall x :: x in xs[..n] ==> x in xs;
    }
  }

  /** Filtering by any key other than `t`'s loses nothing when the files
      matching `t` are taken out first. */
  lemma {:induction false} NonMatchingKeepsOtherKeys(t: GroupedFile, xs: seq<GroupedFile>, k: Key)
    requires k != KeyOf(t)
    ensures WithKey(NonMatching(t, xs), k) == WithKey(xs, k)
    decreases |xs|
  {
    if |xs| > 0 {
      var n := |xs| - 1;
      var x := xs[n];
      NonMatchingKeepsOtherKeys(t, xs[..n], k);
      MatchesIffSameKey(x, t);
      if !Matches(x, t) {
        var rest := NonMatching(t, xs[..n]);
        assert (rest + [x])[|rest + [x]| - 1] == x;
        assert (rest + [x])[..|rest + [x]| - 1] == rest;
      }
    }
  }

  /** Every file lands in exactly one group: the groups together hold the
      project's files, each as often as the project lists it. */
  lemma {:induction false} GroupsPartitionFiles(files: seq<GroupedFile>)
    ensures multiset(Flatten(GroupSpec(files))) == multiset(files)
    decreases |files|
  {
    if |files| > 0 {
      var t := files[0];
      var rest := files[1..];
      GroupsPartitionFiles(NonMatching(t, rest));
      MatchingSplits(t, rest);
      SplitHead(files);
    }
  }

  /** The group a file's template heads, within a list headed by `t`. */
  lemma WithKeyOfCons(t: GroupedFile, rest: seq<GroupedFile>, k: Key)
    ensures KeyOf(t) == k ==> WithKey([t] + rest, k) == [t] + Matching(t, rest)
    ensures KeyOf(t) != k ==> WithKey([t] + rest, k) == WithKey(NonMatching(t, rest), k)
  {
    FiltersAppend(t, k, [t], rest);
    assert [t][..0] == [];
    if KeyOf(t) == k {
      MatchingIsWithKey(t, rest);
    } else {
      NonMatchingKeepsOtherKeys(t, rest, k);
    }
  }

  /** No group is empty, each starts with its template, every file of a group
      has the template's key, and the group is every file of the project with
      that key, in project order. */
  lemma {:induction false} GroupsAreKeyClasses(files: seq<GroupedFile>)
    ensures var spec := GroupSpec(files);
            forall g :: 0 <= g < |spec| ==>
              && |spec[g]| >= 1
              && spec[g][0] in files
              && spec[g] == WithKey(files, KeyOf(spec[g][0]))
    decreases |files|
  {
    if |files| > 0 {
      var t := files[0];
      var rest := files[1..];
      var others := NonMatching(t, rest);
      var spec := GroupSpec(files);
      GroupsAreKeyClasses(others);
      NonMatchingKeys(t, rest);
      SplitHead(files);
      forall g | 0 <= g < |spec|
        ensures |spec[g]| >= 1 && spec[g][0] in files && spec[g] == WithKey(files, KeyOf(spec[g][0]))
      {
        if g > 0 {
          assert spec[g] == GroupSpec(others)[g - 1];
          assert spec[g][0] in others;
        }
        WithKeyOfCons(t, rest, KeyOf(spec[g][0]));
      }
    }
  }

  /** Files in different groups differ in at least one of the four compared
      values. */
  lemma {:induction false} GroupsHaveDistinctKeys(files: seq<GroupedFile>)
    ensures var spec := GroupSpec(files);
            forall a, b :: 0 <= a < b < |spec| ==>
              |spec[a]| >= 1 && |spec[b]| >= 1 && KeyOf(spec[a][0]) != KeyOf(spec[b][0])
    decreases |files|
  {
    if |files| > 0 {
      var t := files[0];
      var rest := files[1..];
      var others := NonMatching(t, rest);
      var spec := GroupSpec(files);
      GroupsHaveDistinctKeys(others);
      GroupsAreKeyClasses(others);
      NonMatchingKeys(t, rest);
      forall a, b | 0 <= a < b < |spec|
        ensures |spec[a]| >= 1 && |spec[b]| >= 1 && KeyOf(spec[a][0]) != KeyOf(spec[b][0])
      {
        assert spec[b] == GroupSpec(others)[b - 1];
        if a == 0 {
          assert spec[b][0] in others;
        } else {
          assert spec[a] == GroupSpec(others)[a - 1];
        }
      }
    }
  }

  /** `ks` with every occurrence of `k` taken out. */
  function Without(ks: seq<Key>, k: Key): (r: seq<Key>)
    ensures forall x :: x in r <==> x in ks && x != k
    decreases |ks|
  {
    if |ks| == 0 then []
    else if ks[0] == k then Without(ks[1..], k)
    else [ks[0]] + Without(ks[1..], k)
  }

  /** The distinct keys of `xs` in the order they first occur. */
  function FirstKeys(xs: seq<GroupedFile>): seq<Key>
    decreases |xs|
  {
    if |xs| == 0 then [] else [KeyOf(xs[0])] + Without(FirstKeys(xs[1..]), KeyOf(xs[0]))
  }

  function TemplateKeys(groups: seq<seq<GroupedFile>>): seq<Key>
    requires forall g :: 0 <= g < |groups| ==> |groups[g]| >= 1
  {
    seq(|groups|, g requires 0 <= g < |groups| => KeyOf(groups[g][0]))
  }

  /** Taking the head off a list headed by `x`. */
  lemma WithoutCons(x: Key, r: seq<Key>, k: Key)
    ensures Without([x] + r, k) == if x == k then Without(r, k) else [x] + Without(r, k)
  {
    assert ([x] + r)[0] == x && ([x] + r)[1..] == r;
  }

  lemma {:induction false} WithoutCommutes(ks: seq<Key>, a: Key, b: Key)
    ensures Without(Without(ks, a), b) == Without(Without(ks, b), a)
    ensures Without(Without(ks, a), a) == Without(ks, a)
    decreases |ks|
  {
    if |ks| > 0 {
      WithoutCommutes(ks[1..], a, b);
      var x := ks[0];
      var r := ks[1..];
      WithoutCons(x, Without(r, a), b);
      WithoutCons(x, Without(r, a), a);
      WithoutCons(x, Without(r, b), a);
    }
  }

  lemma NonMatchingCons(t: GroupedFile, x: GroupedFile, ys: seq<GroupedFile>)
    ensures NonMatching(t, [x] + ys) == (if Matches(x, t) then [] else [x]) + NonMatching(t, ys)
  {
    FiltersAppend(t, KeyOf(t), [x], ys);
    assert [x][..0] == [];
    AppendEmpty(NonMatching(t, ys));
  }

  /** Taking the files that do not match `t` out of a list takes `t`'s key
      out of its first-occurrence order and leaves the rest of that order. */
  lemma {:induction false} FirstKeysOfNonMatching(t: GroupedFile, xs: seq<GroupedFile>)
    ensures FirstKeys(NonMatching(t, xs)) == Without(FirstKeys(xs), KeyOf(t))
    decreases |xs|
  {
    if |xs| > 0 {
      var x := xs[0];
      var ys := xs[1..];
      var k := KeyOf(t);
      SplitHead(xs);
      NonMatchingCons(t, x, ys);
      FirstKeysOfNonMatching(t, ys);
      MatchesIffSameKey(x, t);
      var fy := FirstKeys(ys);
      WithoutCommutes(fy, KeyOf(x), k);
      WithoutCons(KeyOf(x), Without(fy, KeyOf(x)), k);
      if Matches(x, t) {
        AppendEmpty(NonMatching(t, ys));
      } else {
        var nm := NonMatching(t, ys);
        assert ([x] + nm)[0] == x && ([x] + nm)[1..] == nm;
      }
    }
  }

  lemma TemplateKeysCons(g: seq<GroupedFile>, gs: seq<seq<GroupedFile>>)
    requires |g| >= 1 && forall i :: 0 <= i < |gs| ==> |gs[i]| >= 1
    ensures forall i :: 0 <= i < |[g] + gs| ==> |([g] + gs)[i]| >= 1
    ensures TemplateKeys([g] + gs) == [KeyOf(g[0])] + TemplateKeys(gs)
  {
    assert forall i :: 0 < i < |[g] + gs| ==> ([g] + gs)[i] == gs[i - 1];
  }

  /** The groups come in the order in which their keys first occur among the
      project's files. */
  lemma {:induction false} GroupsInFirstOccurrenceOrder(files: seq<GroupedFile>)
    ensures var spec := GroupSpec(files);
            (forall g :: 0 <= g < |spec| ==> |spec[g]| >= 1) && TemplateKeys(spec) == FirstKeys(files)
    decreases |files|
  {
    var spec := GroupSpec(files);
    GroupsAreKeyClasses(files);
    if |files| > 0 {
      var t := files[0];
      var others := NonMatching(t, files[1..]);
      GroupsInFirstOccurrenceOrder(others);
      FirstKeysOfNonMatching(t, files[1..]);
      TemplateKeysCons([t] + Matching(t, files[1..]), GroupSpec(others));
    }
  }
}
