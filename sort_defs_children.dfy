/**
 * The sortDefsChildren pass (plugins/sortDefsChildren.js): reorders the
 * children of a `defs` element by how often their element name occurs
 * (most frequent first), then by name length (longest first), then by name
 * (descending), so that children with the same name end up next to each other.
 */
module SortDefsChildren {
  import opened Wrappers
  import opened Dom

  /**
   * The key `frequency[child.elem]` uses: the element name, or the string
   * "undefined" for a child that is not an element (its `elem` is undefined).
   */
  function Key(child: Element): (r: string)
    ensures r != ""
    ensures child.elem != "" ==> r == child.elem
  {
    if child.elem == "" then "undefined" else child.elem
  }

  /** The keys of a sequence of children, in order. */
  function Names(children: seq<Element>): (r: seq<string>)
    ensures |r| == |children|
    ensures forall i :: 0 <= i < |children| ==> r[i] == Key(children[i])
  {
    if children == [] then [] else [Key(children[0])] + Names(children[1..])
  }

  /** The map `reduce` builds over `names`: a name seen again gains one, a new name enters with 1. */
  function Counts(names: seq<string>): (r: map<string, nat>)
  {
    if names == [] then map[]
    else
      var c, n := Counts(names[..|names| - 1]), names[|names| - 1];
      c[n := (if n in c then c[n] else 0) + 1]
  }

  function NameCounts(children: seq<Element>): map<string, nat>
  {
    Counts(Names(children))
  }

  /** The map holds exactly the names that occur, each with its number of occurrences. */
  lemma {:induction false} CountsOccurrences(names: seq<string>)
    ensures forall n :: n in Counts(names) <==> n in names
    ensures forall n :: n in Counts(names) ==> Counts(names)[n] == multiset(names)[n]
  {
    if names != [] {
      var front, last := names[..|names| - 1], names[|names| - 1];
      CountsOccurrences(front);
      assert names == front + [last];
      assert multiset(names) == multiset(front) + multiset{last};
      forall n
        ensures n in names <==> n in front || n == last
      {
        if n in names {
          var k :| 0 <= k < |names| && names[k] == n;
          if k < |front| {
            assert front[k] == n;
          }
        }
      }
    }
  }

  /** One more name seen by the `reduce`, in the form of each of its two branches. */
  lemma CountsSnoc(names: seq<string>, i: nat, freq: map<string, nat>)
    requires i < |names| && freq == Counts(names[..i])
    ensures names[i] in freq ==> Counts(names[..i + 1]) == freq[names[i] := freq[names[i]] + 1]
    ensures names[i] !in freq ==> Counts(names[..i + 1]) == freq[names[i] := 1]
  {
    assert names[..i + 1][..i] == names[..i];
  }

  /** The frequency map the `reduce` over the children builds. */
  method Frequencies(children: seq<Element>) returns (freq: map<string, nat>)
    ensures freq == NameCounts(children)
  {
    freq := Tally(Names(children));
  }

  /** The `reduce` itself, over the keys of the children in order. */
  method Tally(names: seq<string>) returns (freq: map<string, nat>)
    ensures freq == Counts(names)
  {
    freq := map[];
    var i := 0;
    while i < |names|
      invariant 0 <= i <= |names|
      invariant freq == Counts(names[..i])
    {
      var name := names[i];
      CountsSnoc(names, i, freq);
      if name in freq {
        freq := freq[name := freq[name] + 1];
      } else {
        freq := freq[name := 1];
      }
      i := i + 1;
    }
    assert names[..i] == names;
  }

  /**
   * `a > b` on strings, as lexicographic order of the characters.  JavaScript
   * compares UTF-16 code units; this agrees with it on names within the Basic
   * Multilingual Plane, where every character is one code unit.
   */
  predicate StrGreater(a: string, b: string)
  {
    if b == [] then a != []
    else if a == [] then false
    else if a[0] != b[0] then a[0] > b[0]
    else StrGreater(a[1..], b[1..])
  }

  lemma {:induction false} StrGreaterIrreflexive(a: string)
    ensures !StrGreater(a, a)
  {
    if a != [] { StrGreaterIrreflexive(a[1..]); }
  }

  lemma {:induction false} StrGreaterTotal(a: string, b: string)
    ensures a == b || StrGreater(a, b) || StrGreater(b, a)
    ensures !(StrGreater(a, b) && StrGreater(b, a))
  {
    if a != [] && b != [] && a[0] == b[0] {
      StrGreaterTotal(a[1..], b[1..]);
      if a[1..] == b[1..] {
        assert a == [a[0]] + a[1..] && b == [b[0]] + b[1..];
      }
    }
  }

  lemma {:induction false} StrGreaterTransitive(a: string, b: string, c: string)
    requires StrGreater(a, b) && StrGreater(b, c)
    ensures StrGreater(a, c)
  {
    if c != [] && b != [] && a != [] && a[0] == b[0] && b[0] == c[0] {
      StrGreaterTransitive(a[1..], b[1..], c[1..]);
    }
  }

  /** The frequency of a name, as `frequency[name]`. */
  function Freq(freq: map<string, nat>, n: string): int
  {
    if n in freq then freq[n] else 0
  }

  /** The comparator of `content.sort`: negative when `a` goes first. */
  function Compare(freq: map<string, nat>, a: string, b: string): int
  {
    var frequencyComparison := Freq(freq, b) - Freq(freq, a);
    if frequencyComparison != 0 then frequencyComparison
    else
      var lengthComparison := |b| - |a|;
      if lengthComparison != 0 then lengthComparison
      else if a != b then (if StrGreater(a, b) then -1 else 1)
      else 0
  }

  /**
   * The order the comparator induces, stated on its three keys: `a` may come
   * before `b` when it is more frequent, or as frequent and longer, or as
   * frequent, as long and not smaller.
   */
  predicate GoesBefore(freq: map<string, nat>, a: string, b: string)
  {
    || Freq(freq, a) > Freq(freq, b)
    || (Freq(freq, a) == Freq(freq, b) && |a| > |b|)
    || (Freq(freq, a) == Freq(freq, b) && |a| == |b| && (a == b || StrGreater(a, b)))
  }

  lemma CompareMeansGoesBefore(freq: map<string, nat>, a: string, b: string)
    ensures Compare(freq, a, b) <= 0 <==> GoesBefore(freq, a, b)
    ensures Compare(freq, a, b) == 0 <==> a == b
  {
    StrGreaterTotal(a, b);
    StrGreaterIrreflexive(a);
  }

  lemma GoesBeforeTotal(freq: map<string, nat>, a: string, b: string)
    ensures GoesBefore(freq, a, b) || GoesBefore(freq, b, a)
    ensures GoesBefore(freq, a, b) && GoesBefore(freq, b, a) ==> a == b
  {
    StrGreaterTotal(a, b);
  }

  lemma GoesBeforeTransitive(freq: map<string, nat>, a: string, b: string, c: string)
    requires GoesBefore(freq, a, b) && GoesBefore(freq, b, c)
    ensures GoesBefore(freq, a, c)
  {
    if Freq(freq, a) == Freq(freq, b) == Freq(freq, c) && |a| == |b| == |c| {
      if a != b && b != c { StrGreaterTransitive(a, b, c); }
    }
  }

  /** The children are in comparator order. */
  ghost predicate Sorted(freq: map<string, nat>, s: seq<Element>)
  {
    forall i, j :: 0 <= i < j < |s| ==> GoesBefore(freq, Key(s[i]), Key(s[j]))
  }

  /**
   * Stable insertion of `x` into a sorted sequence: `x` goes after every
   * element the comparator does not put strictly after it.
   */
  function Insert(freq: map<string, nat>, x: Element, s: seq<Element>): (r: seq<Element>)
    ensures multiset(r) == multiset(s) + multiset{x}
    ensures |r| == |s| + 1
  {
    if s == [] then [x]
    else if Compare(freq, Key(x), Key(s[0])) < 0 then [x] + s
    else
      assert s == [s[0]] + s[1..];
      [s[0]] + Insert(freq, x, s[1..])
  }

  /** A stable sort by the comparator (the result of `content.sort(compare)`). */
  function SortByComparator(freq: map<string, nat>, s: seq<Element>): (r: seq<Element>)
    ensures multiset(r) == multiset(s)
    ensures |r| == |s|
  {
    if s == [] then []
    else
      assert s == s[..|s| - 1] + [s[|s| - 1]];
      Insert(freq, s[|s| - 1], SortByComparator(freq, s[..|s| - 1]))
  }

  lemma {:induction false} InsertSorted(freq: map<string, nat>, x: Element, s: seq<Element>)
    requires Sorted(freq, s)
    ensures Sorted(freq, Insert(freq, x, s))
    decreases |s|
  {
    if s == [] {
    } else if Compare(freq, Key(x), Key(s[0])) < 0 {
      InsertSortedFront(freq, x, s);
    } else {
      InsertSorted(freq, x, s[1..]);
      InsertSortedAfter(freq, x, s);
    }
  }

  /** `x` goes first: it comes before the first child, hence before all of them. */
  lemma InsertSortedFront(freq: map<string, nat>, x: Element, s: seq<Element>)
    requires Sorted(freq, s) && s != [] && Compare(freq, Key(x), Key(s[0])) < 0
    ensures Sorted(freq, [x] + s)
  {
    CompareMeansGoesBefore(freq, Key(x), Key(s[0]));
    var r := [x] + s;
    forall i, j | 0 <= i < j < |r| ensures GoesBefore(freq, Key(r[i]), Key(r[j])) {
      if i == 0 && j > 1 { GoesBeforeTransitive(freq, Key(x), Key(s[0]), Key(s[j - 1])); }
    }
  }

  /** The insertion adds `x` and nothing else. */
  lemma {:induction false} InsertMembers(freq: map<string, nat>, x: Element, s: seq<Element>, y: Element)
    ensures y in Insert(freq, x, s) <==> y == x || y in s
    decreases |s|
  {
    if s != [] && Compare(freq, Key(x), Key(s[0])) >= 0 {
      InsertMembers(freq, x, s[1..], y);
      assert s == [s[0]] + s[1..];
    }
  }

  /** In sorted children the first comes before every later one. */
  lemma FirstBeforeRest(freq: map<string, nat>, s: seq<Element>, y: Element)
    requires Sorted(freq, s) && s != [] && y in s[1..]
    ensures GoesBefore(freq, Key(s[0]), Key(y))
  {
    var m :| 0 <= m < |s[1..]| && s[1..][m] == y;
    assert s[m + 1] == y;
  }

  /** `x` goes after the first child, which comes before everything in the sorted rest. */
  lemma InsertSortedAfter(freq: map<string, nat>, x: Element, s: seq<Element>)
    requires Sorted(freq, s) && s != [] && Compare(freq, Key(x), Key(s[0])) >= 0
    requires Sorted(freq, Insert(freq, x, s[1..]))
    ensures Sorted(freq, [s[0]] + Insert(freq, x, s[1..]))
  {
    CompareMeansGoesBefore(freq, Key(x), Key(s[0]));
    GoesBeforeTotal(freq, Key(x), Key(s[0]));
    assert GoesBefore(freq, Key(s[0]), Key(x));
    var t := Insert(freq, x, s[1..]);
    forall k | 0 <= k < |t| ensures GoesBefore(freq, Key(s[0]), Key(t[k])) {
      if t[k] != x {
        InsertMembers(freq, x, s[1..], t[k]);
        assert t[k] in t;
        FirstBeforeRest(freq, s, t[k]);
      }
    }
    SortedCons(freq, s[0], t);
  }

  /** A child that comes before every child of a sorted sequence can go in front of it. */
  lemma SortedCons(freq: map<string, nat>, a: Element, t: seq<Element>)
    requires Sorted(freq, t)
    requires forall k :: 0 <= k < |t| ==> GoesBefore(freq, Key(a), Key(t[k]))
    ensures Sorted(freq, [a] + t)
  {
    var r := [a] + t;
    forall i, j | 0 <= i < j < |r| ensures GoesBefore(freq, Key(r[i]), Key(r[j])) {
      if i > 0 { assert r[i] == t[i - 1] && r[j] == t[j - 1]; }
      else { assert r[j] == t[j - 1]; }
    }
  }

  lemma {:induction false} SortSorted(freq: map<string, nat>, s: seq<Element>)
    ensures Sorted(freq, SortByComparator(freq, s))
  {
    if s != [] {
      SortSorted(freq, s[..|s| - 1]);
      InsertSorted(freq, s[|s| - 1], SortByComparator(freq, s[..|s| - 1]));
    }
  }

  /** The children whose key is `k`, in order. */
  function Only(s: seq<Element>, k: string): seq<Element>
  {
    if s == [] then [] else (if Key(s[0]) == k then [s[0]] else []) + Only(s[1..], k)
  }

  lemma {:induction false} OnlySnoc(s: seq<Element>, x: Element, k: string)
    ensures Only(s + [x], k) == Only(s, k) + (if Key(x) == k then [x] else [])
    decreases |s|
  {
    if s == [] {
      assert [x][1..] == [];
    } else {
      OnlySnoc(s[1..], x, k);
      OnlyCons(s, s[1..] + [x], k, if Key(x) == k then [x] else []);
      assert [s[0]] + (s[1..] + [x]) == s + [x];
    }
  }

  lemma {:induction false} OnlyNone(s: seq<Element>, k: string)
    requires forall y :: y in s ==> Key(y) != k
    ensures Only(s, k) == []
    decreases |s|
  {
    if s != [] {
      OnlyNone(s[1..], k);
    }
  }

  /**
   * Inserting `x` into sorted children puts it after every child with its
   * key, and leaves the children of any other key as they were.
   */
  lemma {:induction false} InsertOnly(freq: map<string, nat>, x: Element, s: seq<Element>, k: string)
    requires Sorted(freq, s)
    ensures Only(Insert(freq, x, s), k) == Only(s, k) + (if Key(x) == k then [x] else [])
    decreases |s|
  {
    if s == [] {
      assert Only([x], k) == (if Key(x) == k then [x] else []) + Only([x][1..], k);
    } else if Compare(freq, Key(x), Key(s[0])) < 0 {
      InsertOnlyFront(freq, x, s, k);
    } else {
      SortedTail(freq, s);
      InsertOnly(freq, x, s[1..], k);
      InsertOnlyAfter(freq, x, s, k);
    }
  }

  /** `x` goes in front: no sorted child shares its key when that is `k`. */
  lemma InsertOnlyFront(freq: map<string, nat>, x: Element, s: seq<Element>, k: string)
    requires Sorted(freq, s) && s != [] && Compare(freq, Key(x), Key(s[0])) < 0
    ensures Only(Insert(freq, x, s), k) == Only(s, k) + (if Key(x) == k then [x] else [])
  {
    var tail := if Key(x) == k then [x] else [];
    assert Insert(freq, x, s) == [x] + s;
    assert Only([x] + s, k) == tail + Only(([x] + s)[1..], k);
    assert ([x] + s)[1..] == s;
    if Key(x) == k {
      NoneAfterFront(freq, x, s);
      OnlyNone(s, k);
    }
  }

  /** `x` goes after the first child: the first child's contribution comes first. */
  lemma InsertOnlyAfter(freq: map<string, nat>, x: Element, s: seq<Element>, k: string)
    requires s != [] && Compare(freq, Key(x), Key(s[0])) >= 0
    requires Only(Insert(freq, x, s[1..]), k) == Only(s[1..], k) + (if Key(x) == k then [x] else [])
    ensures Only(Insert(freq, x, s), k) == Only(s, k) + (if Key(x) == k then [x] else [])
  {
    assert Insert(freq, x, s) == [s[0]] + Insert(freq, x, s[1..]);
    OnlyCons(s, Insert(freq, x, s[1..]), k, if Key(x) == k then [x] else []);
  }

  /** Putting the first child back in front of `t` adds its contribution in front. */
  lemma OnlyCons(s: seq<Element>, t: seq<Element>, k: string, tail: seq<Element>)
    requires s != [] && Only(t, k) == Only(s[1..], k) + tail
    ensures Only([s[0]] + t, k) == Only(s, k) + tail
  {
    var pre := if Key(s[0]) == k then [s[0]] else [];
    assert ([s[0]] + t)[1..] == t;
    assert Only([s[0]] + t, k) == pre + Only(t, k);
    assert Only(s, k) == pre + Only(s[1..], k);
  }

  /** A child the comparator puts strictly before sorted children shares its key with none of them. */
  lemma NoneAfterFront(freq: map<string, nat>, x: Element, s: seq<Element>)
    requires Sorted(freq, s) && s != [] && Compare(freq, Key(x), Key(s[0])) < 0
    ensures forall y :: y in s ==> Key(y) != Key(x)
  {
    CompareMeansGoesBefore(freq, Key(x), Key(s[0]));
    GoesBeforeTotal(freq, Key(x), Key(s[0]));
    forall y | y in s[1..] ensures Key(y) != Key(x) {
      FirstBeforeRest(freq, s, y);
    }
    assert s == [s[0]] + s[1..];
  }

  lemma SortedTail(freq: map<string, nat>, s: seq<Element>)
    requires Sorted(freq, s) && s != []
    ensures Sorted(freq, s[1..])
  {
    forall i, j | 0 <= i < j < |s[1..]| ensures GoesBefore(freq, Key(s[1..][i]), Key(s[1..][j])) {
      assert s[1..][i] == s[i + 1] && s[1..][j] == s[j + 1];
    }
  }

  /**
   * The sort is stable: the children with one key, which the comparator
   * answers 0 for, keep their order.
   */
  lemma {:induction false} SortStable(freq: map<string, nat>, s: seq<Element>, k: string)
    ensures Only(SortByComparator(freq, s), k) == Only(s, k)
    decreases |s|
  {
    if s != [] {
      var front, last := s[..|s| - 1], s[|s| - 1];
      assert s == front + [last];
      var sorted := SortByComparator(freq, front);
      assert SortByComparator(freq, s) == Insert(freq, last, sorted);
      SortStable(freq, front, k);
      SortSorted(freq, front);
      InsertOnly(freq, last, sorted, k);
      OnlySnoc(front, last, k);
    }
  }

  /**
   * Consequences of the order for the sorted children: more frequent names
   * first, longer names first at equal frequency, descending names at equal
   * frequency and length, and the children with one name contiguous.
   */
  lemma SortedOrder(freq: map<string, nat>, s: seq<Element>, i: int, j: int, k: int)
    requires Sorted(freq, s)
    requires 0 <= i < j < k < |s|
    ensures Freq(freq, Key(s[i])) >= Freq(freq, Key(s[j]))
    ensures Freq(freq, Key(s[i])) == Freq(freq, Key(s[j])) ==> |Key(s[i])| >= |Key(s[j])|
    ensures Freq(freq, Key(s[i])) == Freq(freq, Key(s[j])) && |Key(s[i])| == |Key(s[j])| && Key(s[i]) != Key(s[j])
            ==> StrGreater(Key(s[i]), Key(s[j]))
    ensures Key(s[i]) == Key(s[k]) ==> Key(s[j]) == Key(s[i])
  {
    if Key(s[i]) == Key(s[k]) {
      assert GoesBefore(freq, Key(s[i]), Key(s[j])) && GoesBefore(freq, Key(s[j]), Key(s[k]));
      GoesBeforeTotal(freq, Key(s[i]), Key(s[j]));
    }
  }

  /**
   * The comparator reads `b.elem.length` and `a.elem.length` once two
   * children have the same frequency, and a non-element child has no `elem`:
   * the sort throws when such a child shares its frequency with another
   * child. Any correct comparison sort compares that child with some child
   * of the same frequency (otherwise it could not place it among them), so
   * the throw depends only on the children and their frequencies.
   */
  predicate Throws(freq: map<string, nat>, s: seq<Element>)
  {
    exists i, j :: 0 <= i < |s| && 0 <= j < |s| && i != j && s[i].elem == "" && Freq(freq, Key(s[i])) == Freq(freq, Key(s[j]))
  }

  /** All non-element children share the key "undefined", so a sort that does not throw has at most one of them. */
  lemma NoThrowOneNonElement(s: seq<Element>, i: int, j: int)
    requires !Throws(NameCounts(s), s)
    requires 0 <= i < j < |s| && s[i].elem == ""
    ensures s[j].elem != ""
  {
  }

  /** Children that are all elements never make the comparator throw. */
  lemma ElementsNeverThrow(freq: map<string, nat>, s: seq<Element>)
    requires forall k :: 0 <= k < |s| ==> s[k].elem != ""
    ensures !Throws(freq, s)
  {
  }

  /** `<defs><!--c--><linearGradient/></defs>`: both children occur once, so comparing them throws. */
  lemma CommentBesideGradient(c: Element, g: Element)
    requires c.elem == "" && g.elem == "linearGradient"
    ensures Throws(NameCounts([c, g]), [c, g])
  {
    var s := [c, g];
    assert Names(s) == ["undefined", "linearGradient"];
    var names := Names(s);
    assert names[..1] == ["undefined"] && names[..1][..0] == [];
    assert Counts(names[..1]) == map["undefined" := 1];
    assert Counts(names) == map["undefined" := 1, "linearGradient" := 1];
  }

  /**
   * The per-item function: for a `defs` element, sorts its children with the
   * comparator over the frequency map of their keys and answers true, or
   * fails with the comparator's TypeError (the children stay as they were);
   * any other item is left as it is (the function answers undefined).
   */
  method Fn(item: Element) returns (r: Result<Option<bool>, string>)
    modifies item
    ensures item.elem != "defs" ==> r == Success(None) && item.content == old(item.content)
    ensures item.elem == "defs" && Throws(NameCounts(old(item.content)), old(item.content)) ==>
              r.Failure? && item.content == old(item.content)
    ensures item.elem == "defs" && !Throws(NameCounts(old(item.content)), old(item.content)) ==>
              && r == Success(Some(true))
              && item.content == SortByComparator(NameCounts(old(item.content)), old(item.content))
              && Sorted(NameCounts(old(item.content)), item.content)
    ensures multiset(item.content) == multiset(old(item.content))
    ensures item.attrs == old(item.attrs) && item.classes == old(item.classes) && item.style == old(item.style)
    ensures item.parentNode == old(item.parentNode) && item.text == old(item.text)
  {
    if item.IsElem(Named("defs")) {
      var freq := Frequencies(item.content);
      if Throws(freq, item.content) {
        return Failure("TypeError: Cannot read properties of undefined (reading 'length')");
      }
      item.content := SortByComparator(freq, item.content);
      SortSorted(freq, old(item.content));
      return Success(Some(true));
    }
    return Success(None);
  }
}
