/**
  The .NET string operations the add-in relies on, stated over `seq<char>`,
  together with the facts about them that the other modules use.
  A .NET `null` string is an `Option<string>` holding `None`.
 */
module Text {

  datatype Option<+T> = None | Some(value: T)

  /** A string reference as it appears inside a C# concatenation: `null` reads as "". */
  function OrEmpty(s: Option<string>): string {
    match s
    case None => ""
    case Some(v) => v
  }

  /** `String.IsNullOrEmpty`. */
  predicate IsNullOrEmpty(s: Option<string>) {
    s.None? || s.value == ""
  }

  /** `Char.IsWhiteSpace`: the Unicode space separators, line and paragraph
      separators, and the control characters U+0009..U+000D, U+0085. */
  predicate IsWhiteSpace(c: char) {
    || '\t' <= c <= '\r'
    || c == ' ' || c == '\U{0085}' || c == '\U{00A0}' || c == '\U{1680}'
    || '\U{2000}' <= c <= '\U{200A}'
    || c == '\U{2028}' || c == '\U{2029}' || c == '\U{202F}' || c == '\U{205F}' || c == '\U{3000}'
  }

  /** `String.IsNullOrWhiteSpace`. */
  predicate IsNullOrWhiteSpace(s: Option<string>) {
    s.None? || forall i :: 0 <= i < |s.value| ==> IsWhiteSpace(s.value[i])
  }

  /** Appending a non-empty sequence is appending its head, then its tail. */
  lemma SplitFirst<T>(a: seq<T>, b: seq<T>)
    requires |b| > 0
    ensures a + [b[0]] + b[1..] == a + b
  {
    assert b == [b[0]] + b[1..];
  }

  lemma SplitHead<T>(s: seq<T>)
    requires |s| > 0
    ensures s == [s[0]] + s[1..]
  {
  }

  lemma SplitLast<T>(s: seq<T>)
    requires |s| > 0
    ensures s == s[..|s| - 1] + [s[|s| - 1]]
  {
  }

  lemma AppendEmpty<T>(s: seq<T>)
    ensures s + [] == s && [] + s == s
  {
  }

  lemma AppendAssoc<T>(a: seq<T>, b: seq<T>, c: seq<T>)
    ensures a + b + c == a + (b + c)
  {
  }

  lemma TakeSmall<T>(c: seq<T>)
    ensures |c| >= 1 ==> c[..1] == [c[0]]
    ensures |c| >= 2 ==> c[..2] == [c[0], c[1]]
    ensures |c| >= 3 ==> c[..3] == [c[0], c[1], c[2]]
  {
  }

  /** Cutting a sequence around one element. */
  lemma SplitAt<T>(s: seq<T>, k: nat)
    requires k < |s|
    ensures s == s[..k] + [s[k]] + s[k + 1..]
  {
  }

  lemma TakeAppend<T>(a: seq<T>, b: seq<T>, k: nat)
    requires k <= |b|
    ensures (a + b)[..|a| + k] == a + b[..k]
  {
  }

  /** A suffix that starts with `x` followed by `r`. */
  lemma DropCons<T>(s: seq<T>, k: nat, x: T, r: seq<T>)
    requires k <= |s| && s[k..] == [x] + r
    ensures k < |s| && s[k] == x && s[k + 1..] == r
  {
    assert s[k..][0] == x;
    assert s[k..][1..] == r;
  }

  lemma DropAppend<T>(a: seq<T>, b: seq<T>, k: nat)
    requires k <= |a|
    ensures (a + b)[k..] == a[k..] + b
  {
  }

  /** Ordinal `s.StartsWith(p)`. */
  predicate StartsWith(s: string, p: string) {
    |p| <= |s| && s[..|p|] == p
  }

  /** Ordinal `s.EndsWith(p)`. */
  predicate EndsWith(s: string, p: string) {
    |p| <= |s| && s[|s| - |p|..] == p
  }

  /** Ordinal `s.Contains(p)`. */
  predicate Contains(s: string, p: string) {
    exists i :: 0 <= i <= |s| && StartsWith(s[i..], p)
  }

  predicate Distinct<T(==)>(s: seq<T>) {
    forall i, j :: 0 <= i < j < |s| ==> s[i] != s[j]
  }

  /** `s.Split(sep)`: the pieces between occurrences of `sep`; there is always
      one more piece than there are separators, so at least one. */
  function Split(s: string, sep: char): (parts: seq<string>)
    ensures |parts| >= 1
    ensures forall i :: 0 <= i < |parts| ==> sep !in parts[i]
  {
    if |s| == 0 then [""]
    else if s[0] == sep then [""] + Split(s[1..], sep)
    else
      var rest := Split(s[1..], sep);
      [[s[0]] + rest[0]] + rest[1..]
  }

  /** `String.Join(sep, parts)`. */
  function Join(parts: seq<string>, sep: string): string {
    if |parts| == 0 then ""
    else if |parts| == 1 then parts[0]
    else parts[0] + sep + Join(parts[1..], sep)
  }

  lemma JoinSmall(x: string, y: string, z: string, sep: string)
    ensures Join([x], sep) == x
    ensures Join([x, y], sep) == x + sep + y
    ensures Join([x, y, z], sep) == x + sep + y + sep + z
  {
    assert [x, y][1..] == [y];
    assert [x, y, z][1..] == [y, z];
    assert [y, z][1..] == [z];
    assert Join([y, z], sep) == y + sep + z;
    assert Join([x, y, z], sep) == x + sep + (y + sep + z);
    assert x + sep + (y + sep + z) == x + sep + y + sep + z;
  }

  lemma JoinCons(x: string, parts: seq<string>, sep: string)
    requires |parts| >= 1
    ensures Join([x] + parts, sep) == x + sep + Join(parts, sep)
  {
    assert ([x] + parts)[1..] == parts;
  }

  lemma JoinPrependToFirst(x: string, parts: seq<string>, sep: string)
    requires |parts| >= 1
    ensures Join([x + parts[0]] + parts[1..], sep) == x + Join(parts, sep)
  {
    var q := [x + parts[0]] + parts[1..];
    assert q[1..] == parts[1..];
  }

  /** Joining the pieces of a split with the same separator gives the string back. */
  lemma {:induction false} JoinSplit(s: string, sep: char)
    ensures Join(Split(s, sep), [sep]) == s
    decreases |s|
  {
    if |s| == 0 {
    } else if s[0] == sep {
      var rest := Split(s[1..], sep);
      JoinSplit(s[1..], sep);
      assert ([""] + rest)[1..] == rest;
      assert s == [sep] + s[1..];
    } else {
      var rest := Split(s[1..], sep);
      JoinSplit(s[1..], sep);
      JoinPrependToFirst([s[0]], rest, [sep]);
      assert s == [s[0]] + s[1..];
    }
  }

  /** A string without the separator splits into itself alone. */
  lemma {:induction false} SplitWithoutSeparator(s: string, sep: char)
    requires sep !in s
    ensures Split(s, sep) == [s]
    decreases |s|
  {
    if |s| > 0 {
      assert s[0] != sep;
      SplitWithoutSeparator(s[1..], sep);
      assert [s[0]] + s[1..] == s;
    }
  }

  lemma {:induction false} SplitPrefix(a: string, t: string, sep: char)
    requires sep !in a
    ensures Split(a + t, sep) == [a + Split(t, sep)[0]] + Split(t, sep)[1..]
    decreases |a|
  {
    if |a| == 0 {
      assert a + t == t;
      var p := Split(t, sep);
      assert "" + p[0] == p[0];
      assert [p[0]] + p[1..] == p;
    } else {
      SplitPrefix(a[1..], t, sep);
      assert (a + t)[1..] == a[1..] + t;
      assert (a + t)[0] == a[0];
      var rest := Split(a[1..] + t, sep);
      assert rest[1..] == Split(t, sep)[1..];
      assert [a[0]] + (a[1..] + Split(t, sep)[0]) == a + Split(t, sep)[0];
    }
  }

  /** Splitting pieces that were joined, none holding the separator, gives the pieces back. */
  lemma {:induction false} SplitJoin(parts: seq<string>, sep: char)
    requires |parts| >= 1
    requires forall i :: 0 <= i < |parts| ==> sep !in parts[i]
    ensures Split(Join(parts, [sep]), sep) == parts
    decreases |parts|
  {
    if |parts| == 1 {
      SplitWithoutSeparator(parts[0], sep);
    } else {
      var tail := Join(parts[1..], [sep]);
      SplitJoin(parts[1..], sep);
      assert Join(parts, [sep]) == parts[0] + ([sep] + tail);
      SplitPrefix(parts[0], [sep] + tail, sep);
      assert ([sep] + tail)[1..] == tail;
      assert Split([sep] + tail, sep) == [""] + parts[1..];
      assert parts[0] + "" == parts[0];
      assert [parts[0]] + parts[1..] == parts;
    }
  }

  /** `s.Replace(c.ToString(), "")`: every occurrence of `c` removed. */
  function RemoveChar(s: string, c: char): (r: string)
    ensures c !in r
    ensures forall x :: x in r <==> x in s && x != c
    ensures c !in s ==> r == s
    ensures |r| <= |s|
  {
    if |s| == 0 then ""
    else if s[0] == c then RemoveChar(s[1..], c)
    else
      assert s == [s[0]] + s[1..];
      [s[0]] + RemoveChar(s[1..], c)
  }

  lemma {:induction false} RemoveCharAppend(a: string, b: string, c: char)
    ensures RemoveChar(a + b, c) == RemoveChar(a, c) + RemoveChar(b, c)
    decreases |a|
  {
    if |a| == 0 {
      assert a + b == b;
    } else {
      assert (a + b)[1..] == a[1..] + b;
      assert (a + b)[0] == a[0];
      RemoveCharAppend(a[1..], b, c);
    }
  }

  /** `s.Replace("\\\\", "\\")`: scanning left to right, each non-overlapping
      pair of backslashes becomes one backslash. */
  function CollapseBackslashes(s: string): (r: string)
    ensures |r| <= |s|
    ensures |s| > 0 ==> |r| > 0 && r[0] == s[0]
  {
    if |s| >= 2 && s[0] == '\\' && s[1] == '\\' then "\\" + CollapseBackslashes(s[2..])
    else if |s| == 0 then ""
    else [s[0]] + CollapseBackslashes(s[1..])
  }

  /** Collapsing introduces no character that was not there. */
  lemma {:induction false} CollapseIntroducesNothing(s: string, c: char)
    requires c !in s
    ensures c !in CollapseBackslashes(s)
    decreases |s|
  {
    if |s| >= 2 && s[0] == '\\' && s[1] == '\\' {
      assert s[2..] == s[1..][1..];
      CollapseIntroducesNothing(s[2..], c);
    } else if |s| > 0 {
      CollapseIntroducesNothing(s[1..], c);
    }
  }

  /** Two adjacent backslashes somewhere in `s`. */
  predicate HasDoubleBackslash(s: string) {
    exists i :: 0 <= i < |s| - 1 && s[i] == '\\' && s[i + 1] == '\\'
  }

  /** Doubling every backslash: what escaping a path for storage does. */
  function EscapeBackslashes(s: string): string {
    if |s| == 0 then ""
    else (if s[0] == '\\' then "\\\\" else [s[0]]) + EscapeBackslashes(s[1..])
  }

  /** Collapsing undoes escaping. */
  lemma {:induction false} CollapseUndoesEscape(s: string)
    ensures CollapseBackslashes(EscapeBackslashes(s)) == s
    decreases |s|
  {
    if |s| > 0 {
      CollapseUndoesEscape(s[1..]);
      var e := EscapeBackslashes(s[1..]);
      if s[0] == '\\' {
        assert ("\\\\" + e)[2..] == e;
      } else {
        assert ([s[0]] + e)[1..] == e;
      }
      assert s == [s[0]] + s[1..];
    }
  }

  lemma {:induction false} CollapseShrinks(s: string)
    requires HasDoubleBackslash(s)
    ensures |CollapseBackslashes(s)| < |s|
    decreases |s|
  {
    if !(|s| >= 2 && s[0] == '\\' && s[1] == '\\') {
      var i :| 0 <= i < |s| - 1 && s[i] == '\\' && s[i + 1] == '\\';
      assert i >= 1;
      assert s[1..][i - 1] == '\\' && s[1..][i] == '\\';
      CollapseShrinks(s[1..]);
    }
  }

  lemma {:induction false} CollapseKeepsSingles(s: string)
    requires !HasDoubleBackslash(s)
    ensures CollapseBackslashes(s) == s
    decreases |s|
  {
    if |s| > 0 {
      assert !HasDoubleBackslash(s[1..]) by {
        forall i | 0 <= i < |s[1..]| - 1
          ensures !(s[1..][i] == '\\' && s[1..][i + 1] == '\\')
        {
          assert s[1..][i] == s[i + 1] && s[1..][i + 1] == s[i + 2];
        }
      }
      CollapseKeepsSingles(s[1..]);
      assert s == [s[0]] + s[1..];
    }
  }

  /** Collapsing changes a string exactly when it holds a doubled backslash. */
  lemma CollapseFixedPoint(s: string)
    ensures CollapseBackslashes(s) == s <==> !HasDoubleBackslash(s)
  {
    if HasDoubleBackslash(s) {
      CollapseShrinks(s);
    } else {
      CollapseKeepsSingles(s);
    }
  }

  /** No backslash pair straddles a boundary that is followed by a non-backslash. */
  lemma {:induction false} CollapseAppend(a: string, b: string)
    requires |b| == 0 || b[0] != '\\'
    ensures CollapseBackslashes(a + b) == CollapseBackslashes(a) + CollapseBackslashes(b)
    decreases |a|
  {
    if |a| == 0 {
      AppendEmpty(b);
      AppendEmpty(CollapseBackslashes(b));
    } else if |a| >= 2 && a[0] == '\\' && a[1] == '\\' {
      DropAppend(a, b, 2);
      assert (a + b)[0] == '\\' && (a + b)[1] == '\\';
      CollapseAppend(a[2..], b);
      AppendAssoc("\\", CollapseBackslashes(a[2..]), CollapseBackslashes(b));
    } else {
      DropAppend(a, b, 1);
      assert (a + b)[0] == a[0];
      assert |a| >= 2 ==> (a + b)[1] == a[1];
      CollapseAppend(a[1..], b);
      AppendAssoc([a[0]], CollapseBackslashes(a[1..]), CollapseBackslashes(b));
    }
  }

  /** Collapsing each piece of a join is collapsing the join, for any separator
      character other than a backslash. */
  lemma {:induction false} CollapseJoin(parts: seq<string>, sep: char)
    requires sep != '\\'
    ensures CollapseBackslashes(Join(parts, [sep])) == Join(CollapseEach(parts), [sep])
    decreases |parts|
  {
    if |parts| >= 2 {
      var tail := Join(parts[1..], [sep]);
      CollapseJoin(parts[1..], sep);
      assert Join(parts, [sep]) == parts[0] + ([sep] + tail);
      CollapseAppend(parts[0], [sep] + tail);
      assert ([sep] + tail)[1..] == tail;
      assert CollapseBackslashes([sep] + tail) == [sep] + CollapseBackslashes(tail);
      assert CollapseEach(parts)[1..] == CollapseEach(parts[1..]);
    }
  }

  function CollapseEach(parts: seq<string>): (r: seq<string>)
    ensures |r| == |parts|
    ensures forall i :: 0 <= i < |parts| ==> r[i] == CollapseBackslashes(parts[i])
  {
    if |parts| == 0 then [] else [CollapseBackslashes(parts[0])] + CollapseEach(parts[1..])
  }

  /** Collapsing never creates or removes a separator, so the split of a
      collapsed string is the collapsed split. */
  lemma SplitCollapse(s: string, sep: char)
    requires sep != '\\'
    ensures Split(CollapseBackslashes(s), sep) == CollapseEach(Split(s, sep))
  {
    var p := Split(s, sep);
    JoinSplit(s, sep);
    CollapseJoin(p, sep);
    var q := CollapseEach(p);
    forall i | 0 <= i < |q| ensures sep !in q[i] {
      CollapseIntroducesNothing(p[i], sep);
    }
    SplitJoin(q, sep);
  }

  /** ASCII `Char.ToLowerInvariant`. */
  function ToLowerAscii(c: char): char {
    if 'A' <= c <= 'Z' then (c as int + 32) as char else c
  }

  function ToLower(s: string): (r: string)
    ensures |r| == |s|
    ensures forall i :: 0 <= i < |s| ==> r[i] == ToLowerAscii(s[i])
  {
    if |s| == 0 then "" else [ToLowerAscii(s[0])] + ToLower(s[1..])
  }

  /** `s.IndexOf(c, from)`: the first index at or after `from` holding `c`. */
  function IndexOfFrom(s: string, c: char, from: nat): (r: Option<nat>)
    requires from <= |s|
    ensures r.Some? ==> from <= r.value < |s| && s[r.value] == c
    ensures r.Some? ==> forall k :: from <= k < r.value ==> s[k] != c
    ensures r.None? ==> forall k :: from <= k < |s| ==> s[k] != c
    decreases |s| - from
  {
    if from == |s| then None
    else if s[from] == c then Some(from)
    else IndexOfFrom(s, c, from + 1)
  }

  /** The order in which a hash set enumerates its members: some listing of the
      set without repetition. */
  ghost function Enumeration(s: set<string>): (r: seq<string>)
    ensures Distinct(r)
    ensures forall x :: x in r <==> x in s
    decreases s
  {
    if s == {} then []
    else
      var x :| x in s;
      var rest := Enumeration(s - {x});
      [x] + rest
  }

  lemma EnumerationOfOne(a: string)
    ensures Enumeration({a}) == [a]
  {
    assert Enumeration({a})[1..] == Enumeration({});
  }
}
