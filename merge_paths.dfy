/**
 * The `mergePaths` pass (plugins/mergePaths.js): in the children of an
 * element, a childless `path` whose attributes other than `d` equal those of
 * the path kept just before it, and which does not intersect it (or `force`
 * is set), is dropped and its drawing commands are appended to that path.
 *
 * Parsing path data (`path2js`), writing it back with the pass's formatting
 * options (`js2path`) and the geometric `intersects` test are not part of
 * this model: they are the parameters in `PathOps`.
 */
module MergePaths {
  import opened Wrappers
  import opened Dom

  /** One drawing command: its instruction letter and its arguments. */
  datatype PathCommand = PathCommand(instruction: char, args: seq<string>)

  /** The path helpers the pass calls. */
  datatype PathOps = PathOps(parse: string -> seq<PathCommand>,
                             serialize: seq<PathCommand> -> string,
                             intersects: (seq<PathCommand>, seq<PathCommand>) -> bool)

  /** What the pass reads of a child: its name, whether it has children, its attributes. */
  datatype ChildView = ChildView(elem: string, empty: bool, attrs: map<string, Attribute>)

  function ViewOf(e: Element): ChildView
    reads e
  {
    ChildView(e.elem, e.content == [], e.attrs)
  }

  function Views(children: seq<Element>): (r: seq<ChildView>)
    reads set c | c in children
    ensures |r| == |children|
    ensures forall k :: 0 <= k < |children| ==> r[k] == ViewOf(children[k])
  {
    if children == [] then [] else [ViewOf(children[0])] + Views(children[1..])
  }

  /** `isElem('path') && isEmpty() && hasAttr('d')`. */
  predicate IsPlainPath(v: ChildView)
  {
    v.elem == "path" && v.empty && "d" in v.attrs
  }

  /**
   * `equalData`: as many attribute names, and every attribute of `cur` other
   * than `d` present on `prev` with the same value.
   */
  predicate EqualData(prev: ChildView, cur: ChildView)
  {
    && |prev.attrs.Keys| == |cur.attrs.Keys|
    && forall key :: key in cur.attrs ==>
         key == "d" || (key in prev.attrs && prev.attrs[key].value == cur.attrs[key].value)
  }

  /** `path2js` of a child: the commands of its `d`. */
  function Commands(v: ChildView, ops: PathOps): seq<PathCommand>
    requires "d" in v.attrs
  {
    ops.parse(v.attrs["d"].value)
  }

  /** Whether the filter callback drops `cur` into `prev`. */
  predicate CanMerge(prev: ChildView, cur: ChildView, ops: PathOps, force: bool)
  {
    && IsPlainPath(prev) && IsPlainPath(cur)
    && EqualData(prev, cur)
    && (force || !ops.intersects(Commands(prev, ops), Commands(cur, ops)))
  }

  /** `js2path(prev, prevPathJS.concat(curPathJS))`: `prev` with its `d` rewritten. */
  function Joined(prev: ChildView, cur: ChildView, ops: PathOps): (r: ChildView)
    requires "d" in prev.attrs && "d" in cur.attrs
  {
    var d := prev.attrs["d"];
    prev.(attrs := prev.attrs["d" := d.(value := ops.serialize(Commands(prev, ops) + Commands(cur, ops)))])
  }

  /** A child the filter keeps: its index among the old children, and what it looks like afterwards. */
  datatype Kept = Kept(index: nat, view: ChildView)

  /**
   * The children the filter keeps, left to right.  The previous content item
   * is always the last child kept so far: a dropped child never becomes it.
   */
  function Merged(views: seq<ChildView>, ops: PathOps, force: bool): seq<Kept>
  {
    if views == [] then []
    else
      var out := Merged(views[..|views| - 1], ops, force);
      var v := views[|views| - 1];
      if out != [] && CanMerge(out[|out| - 1].view, v, ops, force)
      then out[..|out| - 1] + [Kept(out[|out| - 1].index, Joined(out[|out| - 1].view, v, ops))]
      else out + [Kept(|views| - 1, v)]
  }

  /** The indices of the kept children. */
  function Indices(r: seq<Kept>): set<nat>
  {
    set k | 0 <= k < |r| :: r[k].index
  }

  /** The kept views differ from the originals at most in the value of `d`. */
  predicate SameButData(v: ChildView, original: ChildView)
  {
    && v.elem == original.elem && v.empty == original.empty
    && v.attrs.Keys == original.attrs.Keys
    && forall key :: key in v.attrs && key != "d" ==> v.attrs[key] == original.attrs[key]
  }

  /** The kept children are an order-preserving subsequence of the old ones that starts with the first. */
  predicate InOrder(views: seq<ChildView>, r: seq<Kept>)
  {
    && |r| <= |views|
    && (views != [] ==> r != [] && r[0].index == 0)
    && (forall k :: 0 <= k < |r| ==> r[k].index < |views|)
    && (forall k, l :: 0 <= k < l < |r| ==> r[k].index < r[l].index)
  }

  lemma {:induction false} MergedOrder(views: seq<ChildView>, ops: PathOps, force: bool)
    ensures InOrder(views, Merged(views, ops, force))
  {
    if views != [] {
      var n := |views| - 1;
      var front := views[..n];
      MergedOrder(front, ops, force);
      var out := Merged(front, ops, force);
      var r := Merged(views, ops, force);
      if out != [] && CanMerge(out[|out| - 1].view, views[n], ops, force) {
        var last := out[|out| - 1];
        assert r == out[..|out| - 1] + [Kept(last.index, Joined(last.view, views[n], ops))];
        InOrderStep(views, out, r);
      } else {
        assert r == out + [Kept(n, views[n])];
        InOrderStep(views, out, r);
      }
    }
  }

  /** One step of `Merged` keeps the order: it rewrites the last kept child or appends the new one. */
  lemma InOrderStep(views: seq<ChildView>, out: seq<Kept>, r: seq<Kept>)
    requires views != [] && InOrder(views[..|views| - 1], out)
    requires || (out != [] && |r| == |out| && forall k :: 0 <= k < |r| ==> r[k].index == out[k].index)
             || r == out + [Kept(|views| - 1, views[|views| - 1])]
    ensures InOrder(views, r)
  {
    if r == out + [Kept(|views| - 1, views[|views| - 1])] {
      assert forall k :: 0 <= k < |out| ==> r[k] == out[k];
    }
  }

  /** Each kept child differs from the old one at most in its `d`, and only a plain path can differ at all. */
  predicate KeptAsBefore(views: seq<ChildView>, r: seq<Kept>)
  {
    forall k :: 0 <= k < |r| ==>
      && r[k].index < |views|
      && SameButData(r[k].view, views[r[k].index])
      && (!IsPlainPath(views[r[k].index]) ==> r[k].view == views[r[k].index])
  }

  lemma {:induction false} MergedViews(views: seq<ChildView>, ops: PathOps, force: bool)
    ensures KeptAsBefore(views, Merged(views, ops, force))
  {
    if views != [] {
      var n := |views| - 1;
      MergedViews(views[..n], ops, force);
      var out := Merged(views[..n], ops, force);
      var r := Merged(views, ops, force);
      if out != [] && CanMerge(out[|out| - 1].view, views[n], ops, force) {
        var last := out[|out| - 1];
        assert r == out[..|out| - 1] + [Kept(last.index, Joined(last.view, views[n], ops))];
        JoinedKeepsRest(last.view, views[n], ops);
        KeptAsBeforeStep(views, out, r);
      } else {
        assert r == out + [Kept(n, views[n])];
        KeptAsBeforeStep(views, out, r);
      }
    }
  }

  /** Joining changes nothing but the `d` value of the previous path. */
  lemma JoinedKeepsRest(prev: ChildView, cur: ChildView, ops: PathOps)
    requires "d" in prev.attrs && "d" in cur.attrs
    ensures SameButData(Joined(prev, cur, ops), prev)
  {
  }

  /** One step of `Merged` keeps `KeptAsBefore`: it rewrites the `d` of the last kept plain path or appends the new child. */
  lemma KeptAsBeforeStep(views: seq<ChildView>, out: seq<Kept>, r: seq<Kept>)
    requires views != [] && KeptAsBefore(views[..|views| - 1], out)
    requires || (&& out != [] && IsPlainPath(out[|out| - 1].view)
                 && |r| == |out| && r == out[..|out| - 1] + [Kept(out[|out| - 1].index, r[|out| - 1].view)]
                 && SameButData(r[|out| - 1].view, out[|out| - 1].view))
             || r == out + [Kept(|views| - 1, views[|views| - 1])]
    ensures KeptAsBefore(views, r)
  {
    var n := |views| - 1;
    var front := views[..n];
    forall k | 0 <= k < |r|
      ensures && r[k].index < |views|
              && SameButData(r[k].view, views[r[k].index])
              && (!IsPlainPath(views[r[k].index]) ==> r[k].view == views[r[k].index])
    {
      if k < |out| {
        var o := out[k];
        assert o.index < n && SameButData(o.view, front[o.index]);
        assert front[o.index] == views[o.index];
        if r[k] != o {
          assert k == |out| - 1 && r[k].index == o.index;
          assert IsPlainPath(views[o.index]);
        }
      }
    }
  }

  /** A child that is not a plain path is never dropped. */
  lemma {:induction false} MergedKeepsOthers(views: seq<ChildView>, ops: PathOps, force: bool)
    ensures forall i :: 0 <= i < |views| && !IsPlainPath(views[i]) ==> i in Indices(Merged(views, ops, force))
  {
    if views != [] {
      var n := |views| - 1;
      MergedKeepsOthers(views[..n], ops, force);
      var out := Merged(views[..n], ops, force);
      var r := Merged(views, ops, force);
      if out != [] && CanMerge(out[|out| - 1].view, views[n], ops, force) {
        var last := out[|out| - 1];
        assert r == out[..|out| - 1] + [Kept(last.index, Joined(last.view, views[n], ops))];
        IndicesStep(views, out, r);
      } else {
        assert r == out + [Kept(n, views[n])];
        IndicesStep(views, out, r);
      }
    }
  }

  /** One step of `Merged` drops no index, and adds the new one unless it merges the new child. */
  lemma IndicesStep(views: seq<ChildView>, out: seq<Kept>, r: seq<Kept>)
    requires views != []
    requires forall i :: 0 <= i < |views| - 1 && !IsPlainPath(views[..|views| - 1][i]) ==> i in Indices(out)
    requires || (&& out != [] && IsPlainPath(views[|views| - 1])
                 && |r| == |out| && r == out[..|out| - 1] + [Kept(out[|out| - 1].index, r[|out| - 1].view)])
             || r == out + [Kept(|views| - 1, views[|views| - 1])]
    ensures forall i :: 0 <= i < |views| && !IsPlainPath(views[i]) ==> i in Indices(r)
  {
    var n := |views| - 1;
    forall i | 0 <= i < |views| && !IsPlainPath(views[i]) ensures i in Indices(r) {
      if i == n {
        assert r[|out|].index == n;
      } else {
        assert views[..n][i] == views[i];
        assert i in Indices(out);
        var k :| 0 <= k < |out| && out[k].index == i;
        assert r[k].index == i;
      }
    }
  }

  /** Subset of a finite set with the same size. */
  lemma SameSize(a: set<string>, b: set<string>)
    requires b <= a && |a| == |b|
    ensures a == b
  {
    assert |a - b| == |a| - |b|;
  }

  /**
   * Two paths merge only when they carry the same attribute names with the
   * same values, `d` apart: the attribute count test and the value test
   * together rule out an attribute that only one of them has.
   */
  lemma CanMergeSameAttributes(prev: ChildView, cur: ChildView, ops: PathOps, force: bool)
    requires CanMerge(prev, cur, ops, force)
    ensures prev.attrs.Keys == cur.attrs.Keys
    ensures forall key :: key in cur.attrs && key != "d" ==> prev.attrs[key].value == cur.attrs[key].value
  {
    assert cur.attrs.Keys <= prev.attrs.Keys by {
      forall key | key in cur.attrs ensures key in prev.attrs {
        if key == "d" {
          assert IsPlainPath(prev);
        }
      }
    }
    SameSize(prev.attrs.Keys, cur.attrs.Keys);
  }

  /** When no child is a plain path, the filter keeps every child as it is. */
  lemma {:induction false} MergedNoPaths(views: seq<ChildView>, ops: PathOps, force: bool)
    requires forall i :: 0 <= i < |views| ==> !IsPlainPath(views[i])
    ensures Merged(views, ops, force) == seq(|views|, i requires 0 <= i < |views| => Kept(i, views[i]))
  {
    if views != [] {
      var n := |views| - 1;
      MergedNoPaths(views[..n], ops, force);
      var out := Merged(views[..n], ops, force);
      assert out + [Kept(n, views[n])] == seq(|views|, i requires 0 <= i < |views| => Kept(i, views[i]));
    }
  }

  /** The commands of the paths at `lo` up to (not including) `hi`, in order. */
  function RunCommands(views: seq<ChildView>, lo: nat, hi: nat, ops: PathOps): seq<PathCommand>
    requires lo <= hi <= |views|
    requires forall j :: lo <= j < hi ==> "d" in views[j].attrs
    decreases hi - lo
  {
    if lo == hi then [] else RunCommands(views, lo, hi - 1, ops) + Commands(views[hi - 1], ops)
  }

  /** Where the run of the `k`-th kept child ends: at the next kept child, or at the end. */
  function RunEnd(r: seq<Kept>, k: nat, n: nat): nat
    requires k < |r|
  {
    if k + 1 < |r| then r[k + 1].index else n
  }

  /**
   * The run of the `k`-th kept child, when that child is a plain path: the
   * children from it up to the next kept one are all plain paths, and its
   * commands are theirs, in order.
   */
  predicate RunOk(views: seq<ChildView>, r: seq<Kept>, k: nat, ops: PathOps)
    requires k < |r|
  {
    var i := r[k].index;
    var e := RunEnd(r, k, |views|);
    i < |views| && IsPlainPath(views[i]) ==>
      && i < e <= |views|
      && (forall j :: i <= j < e ==> IsPlainPath(views[j]))
      && "d" in r[k].view.attrs
      && Commands(r[k].view, ops) == RunCommands(views, i, e, ops)
  }

  predicate RunsOk(views: seq<ChildView>, r: seq<Kept>, ops: PathOps)
  {
    forall k :: 0 <= k < |r| ==> RunOk(views, r, k, ops)
  }

  /**
   * When reading back what `js2path` writes gives the same commands, each
   * kept path carries the commands of its whole run: itself and the paths
   * merged into it, in order.
   */
  lemma {:induction false} MergedRuns(views: seq<ChildView>, ops: PathOps, force: bool)
    requires forall x :: ops.parse(ops.serialize(x)) == x
    ensures RunsOk(views, Merged(views, ops, force), ops)
  {
    if views != [] {
      var n := |views| - 1;
      var front := views[..n];
      MergedRuns(front, ops, force);
      MergedOrder(front, ops, force);
      var out := Merged(front, ops, force);
      var v := views[n];
      if out != [] && CanMerge(out[|out| - 1].view, v, ops, force) {
        MergedViews(front, ops, force);
        RunsAfterMerge(views, out, ops);
      } else {
        RunsAfterKeep(views, out, ops);
      }
    }
  }

  /** The step of `MergedRuns` where the last child is kept. */
  lemma RunsAfterKeep(views: seq<ChildView>, out: seq<Kept>, ops: PathOps)
    requires views != []
    requires RunsOk(views[..|views| - 1], out, ops)
    requires forall k :: 0 <= k < |out| ==> out[k].index < |views| - 1
    ensures RunsOk(views, out + [Kept(|views| - 1, views[|views| - 1])], ops)
  {
    var n := |views| - 1;
    var r := out + [Kept(n, views[n])];
    forall k | 0 <= k < |r| ensures RunOk(views, r, k, ops) {
      if k < |out| {
        assert r[k] == out[k];
        assert RunEnd(r, k, |views|) == RunEnd(out, k, n);
        RunOkWiden(views, out, r, k, ops);
      } else {
        assert r[k] == Kept(n, views[n]);
        if IsPlainPath(views[n]) {
          assert RunCommands(views, n, n + 1, ops) == [] + Commands(views[n], ops);
        }
      }
    }
  }

  /** The step of `MergedRuns` where the last child is merged into the last kept one. */
  lemma RunsAfterMerge(views: seq<ChildView>, out: seq<Kept>, ops: PathOps)
    requires forall x :: ops.parse(ops.serialize(x)) == x
    requires views != [] && out != []
    requires RunsOk(views[..|views| - 1], out, ops)
    requires KeptAsBefore(views[..|views| - 1], out)
    requires forall k :: 0 <= k < |out| ==> out[k].index < |views| - 1
    requires IsPlainPath(out[|out| - 1].view) && IsPlainPath(views[|views| - 1])
    ensures var last := out[|out| - 1];
            RunsOk(views, out[..|out| - 1] + [Kept(last.index, Joined(last.view, views[|views| - 1], ops))], ops)
  {
    var n := |views| - 1;
    var m := |out| - 1;
    var last := out[m];
    var r := out[..m] + [Kept(last.index, Joined(last.view, views[n], ops))];
    forall k | 0 <= k < |r| ensures RunOk(views, r, k, ops) {
      if k < m {
        assert r[k] == out[k];
        assert r[k + 1].index == out[k + 1].index;
        assert RunEnd(r, k, |views|) == RunEnd(out, k, n);
        RunOkWiden(views, out, r, k, ops);
      } else {
        RunOkJoined(views, out, r, ops);
      }
    }
  }

  /** A run that ends before the last child reads the same with the last child added. */
  lemma RunOkWiden(views: seq<ChildView>, out: seq<Kept>, r: seq<Kept>, k: nat, ops: PathOps)
    requires views != [] && k < |out| && k < |r|
    requires out[k].index < |views| - 1 && r[k] == out[k]
    requires RunEnd(r, k, |views|) == RunEnd(out, k, |views| - 1)
    requires RunOk(views[..|views| - 1], out, k, ops)
    ensures RunOk(views, r, k, ops)
  {
    var n := |views| - 1;
    var front := views[..n];
    var i := out[k].index;
    if IsPlainPath(views[i]) {
      assert front[i] == views[i];
      assert forall j :: i <= j < RunEnd(out, k, n) ==> front[j] == views[j];
      RunCommandsPrefix(views, n, i, RunEnd(out, k, n), ops);
    }
  }

  /** The last run grows by the merged child, whose commands `Joined` appends. */
  lemma RunOkJoined(views: seq<ChildView>, out: seq<Kept>, r: seq<Kept>, ops: PathOps)
    requires forall x :: ops.parse(ops.serialize(x)) == x
    requires views != [] && out != [] && |r| == |out|
    requires RunOk(views[..|views| - 1], out, |out| - 1, ops)
    requires KeptAsBefore(views[..|views| - 1], out)
    requires IsPlainPath(out[|out| - 1].view) && IsPlainPath(views[|views| - 1])
    requires r[|out| - 1] == Kept(out[|out| - 1].index, Joined(out[|out| - 1].view, views[|views| - 1], ops))
    ensures RunOk(views, r, |out| - 1, ops)
  {
    var n := |views| - 1;
    var front := views[..n];
    var m := |out| - 1;
    var last := out[m];
    var i := last.index;
    assert SameButData(last.view, front[i]);
    assert front[i] == views[i];
    assert IsPlainPath(front[i]);
    assert RunEnd(out, m, n) == n && RunEnd(r, m, |views|) == n + 1;
    assert forall j :: i <= j < n ==> front[j] == views[j];
    RunCommandsPrefix(views, n, i, n, ops);
    assert Commands(r[m].view, ops) == Commands(last.view, ops) + Commands(views[n], ops);
  }

  /** RunCommands only reads the children of the run. */
  lemma {:induction false} RunCommandsPrefix(views: seq<ChildView>, n: nat, lo: nat, hi: nat, ops: PathOps)
    requires lo <= hi <= n <= |views|
    requires forall j :: lo <= j < hi ==> "d" in views[j].attrs
    ensures RunCommands(views[..n], lo, hi, ops) == RunCommands(views, lo, hi, ops)
    decreases hi - lo
  {
    if lo < hi {
      RunCommandsPrefix(views, n, lo, hi - 1, ops);
      assert views[..n][hi - 1] == views[hi - 1];
    }
  }

  /** `kept` holds the children `r` keeps, in order, with the attributes `r` gives them. */
  predicate Mirrors(kept: seq<Element>, children: seq<Element>, r: seq<Kept>)
    reads set c | c in kept
  {
    && |kept| == |r|
    && forall k :: 0 <= k < |r| ==>
         r[k].index < |children| && kept[k] == children[r[k].index] && kept[k].attrs == r[k].view.attrs
  }

  /**
   * The body of the filter callback once both `prev` and `cur` are plain
   * paths: the attribute test, the intersection test, and on success
   * `js2path(prev, prevPathJS.concat(curPathJS))`.  `prevKeys` is the cached
   * key list of `prev`; `keys` is the cache afterwards.
   */
  method MergeInto(prev: Element, cur: Element, prevKeys: Option<set<string>>, ops: PathOps, force: bool,
                   ghost before: ChildView, ghost view: ChildView)
    returns (merged: bool, keys: set<string>)
    requires prev != cur
    requires before == ViewOf(prev) && view == ViewOf(cur)
    requires IsPlainPath(before) && IsPlainPath(view)
    requires prevKeys.Some? ==> prevKeys.value == before.attrs.Keys
    modifies prev
    ensures merged == CanMerge(before, view, ops, force)
    ensures prev.attrs == if merged then Joined(before, view, ops).attrs else before.attrs
    ensures keys == prev.attrs.Keys
    ensures prev.content == old(prev.content) && prev.classes == old(prev.classes) && prev.style == old(prev.style)
  {
    keys := if prevKeys.Some? then prevKeys.value else prev.attrs.Keys;
    var curKeys := cur.attrs.Keys;
    var equalData := |keys| == |curKeys| &&
      forall key | key in curKeys ::
        key == "d" || (prev.HasAttr(AttrNamed(key)) && prev.Attr(AttrNamed(key)).value.value == cur.Attr(AttrNamed(key)).value.value);
    var prevPath := ops.parse(prev.attrs["d"].value);
    var curPath := ops.parse(cur.attrs["d"].value);
    merged := equalData && (force || !ops.intersects(prevPath, curPath));
    if merged {
      prev.attrs := prev.attrs["d" := prev.attrs["d"].(value := ops.serialize(prevPath + curPath))];
    }
  }

  /** No element occurs twice among the children. */
  predicate Distinct(children: seq<Element>)
  {
    forall j, k :: 0 <= j < k < |children| ==> children[j] != children[k]
  }

  /**
   * `kept` holds the children `r` keeps, from the first `i`, with the
   * attributes `r` gives them (`now` is how the children look at present).
   */
  predicate Tracks(children: seq<Element>, now: seq<ChildView>, i: nat, kept: seq<Element>, r: seq<Kept>)
  {
    && i <= |children| == |now|
    && |kept| == |r|
    && forall k :: 0 <= k < |r| ==>
         r[k].index < i && kept[k] == children[r[k].index] && now[r[k].index].attrs == r[k].view.attrs
  }

  /**
   * The state of the filter after the first `i` children, when `r` is what
   * it keeps of them: `kept` and `prev` as the filter has them, the cached
   * key list of `prev`, a child not kept still has its old attributes
   * (`views` are the children as they were before the filter, `now` as they
   * are), and no child changed its name or its children.
   */
  predicate StateOf(children: seq<Element>, views: seq<ChildView>, now: seq<ChildView>, i: nat,
                    kept: seq<Element>, prev: Element?, prevKeys: Option<set<string>>, r: seq<Kept>)
  {
    && i <= |children| == |views| == |now|
    && Distinct(children) && Distinct(kept)
    && Tracks(children, now, i, kept, r)
    && prev == (if kept == [] then null else kept[|kept| - 1])
    && (prevKeys.Some? ==> kept != [] && prevKeys.value == now[r[|kept| - 1].index].attrs.Keys)
    && (forall j :: 0 <= j < |children| && children[j] !in kept ==> now[j].attrs == views[j].attrs)
    && (forall j :: 0 <= j < |children| ==> now[j].elem == views[j].elem && now[j].empty == views[j].empty)
  }

  predicate FilterState(children: seq<Element>, views: seq<ChildView>, now: seq<ChildView>, i: nat,
                        kept: seq<Element>, prev: Element?, prevKeys: Option<set<string>>,
                        ops: PathOps, force: bool)
  {
    i <= |views| && StateOf(children, views, now, i, kept, prev, prevKeys, Merged(views[..i], ops, force))
  }

  /** Keeping the child at `i`. */
  lemma KeepState(children: seq<Element>, views: seq<ChildView>, now: seq<ChildView>, i: nat,
                  kept: seq<Element>, prev: Element?, prevKeys: Option<set<string>>, out: seq<Kept>)
    requires i < |children|
    requires StateOf(children, views, now, i, kept, prev, prevKeys, out)
    ensures StateOf(children, views, now, i + 1, kept + [children[i]], children[i], None, out + [Kept(i, views[i])])
  {
    var r := out + [Kept(i, views[i])];
    var kept' := kept + [children[i]];
    assert children[i] !in kept;
    assert Distinct(kept') by {
      forall j, k | 0 <= j < k < |kept'| ensures kept'[j] != kept'[k] {
        if k < |kept| {
          assert kept'[j] == kept[j] && kept'[k] == kept[k];
        }
      }
    }
    forall k | 0 <= k < |r|
      ensures r[k].index < i + 1 && kept'[k] == children[r[k].index] && now[r[k].index].attrs == r[k].view.attrs
    {
      if k < |out| {
        assert r[k] == out[k] && kept'[k] == kept[k];
      }
    }
  }

  /** Merging the child at `i` into the last kept one, whose attributes become `view.attrs`. */
  lemma MergeState(children: seq<Element>, views: seq<ChildView>, now: seq<ChildView>, i: nat,
                   kept: seq<Element>, prev: Element?, prevKeys: Option<set<string>>, out: seq<Kept>,
                   view: ChildView)
    requires i < |children|
    requires StateOf(children, views, now, i, kept, prev, prevKeys, out)
    requires out != []
    ensures var p := out[|out| - 1].index;
            && p < |now|
            && StateOf(children, views, now[p := now[p].(attrs := view.attrs)], i + 1, kept, prev,
                       Some(view.attrs.Keys), out[..|out| - 1] + [Kept(p, view)])
  {
    var m := |out| - 1;
    var p := out[m].index;
    var now' := now[p := now[p].(attrs := view.attrs)];
    var r := out[..m] + [Kept(p, view)];
    forall k | 0 <= k < |r|
      ensures r[k].index < i + 1 && kept[k] == children[r[k].index] && now'[r[k].index].attrs == r[k].view.attrs
    {
      if k < m {
        assert r[k] == out[k];
        assert kept[k] != kept[m];
      }
    }
    forall j | 0 <= j < |children| && children[j] !in kept
      ensures now'[j].attrs == views[j].attrs
    {
      assert children[j] != kept[m];
    }
  }

  /** `Merged` over the first `i + 1` children, in terms of the first `i`. */
  lemma MergedPrefix(views: seq<ChildView>, i: nat, ops: PathOps, force: bool)
    requires i < |views|
    ensures var out := Merged(views[..i], ops, force);
            Merged(views[..i + 1], ops, force)
              == if out != [] && CanMerge(out[|out| - 1].view, views[i], ops, force)
                 then out[..|out| - 1] + [Kept(out[|out| - 1].index, Joined(out[|out| - 1].view, views[i], ops))]
                 else out + [Kept(i, views[i])]
  {
    assert views[..i + 1][..i] == views[..i];
  }

  /** What the callback sees: the child at `i` as it was, and `prev` as the last kept child. */
  lemma SeenByCallback(children: seq<Element>, views: seq<ChildView>, now: seq<ChildView>, i: nat,
                       kept: seq<Element>, prev: Element?, prevKeys: Option<set<string>>,
                       ops: PathOps, force: bool)
    requires i < |children|
    requires FilterState(children, views, now, i, kept, prev, prevKeys, ops, force)
    ensures children[i] !in kept
    ensures now[i] == views[i]
    ensures var out := Merged(views[..i], ops, force);
            && (prev == null <==> out == [])
            && (out != [] ==> prev == children[out[|out| - 1].index] && now[out[|out| - 1].index] == out[|out| - 1].view)
            && (prevKeys.Some? ==> out != [] && prevKeys.value == now[out[|out| - 1].index].attrs.Keys)
  {
    MergedViews(views[..i], ops, force);
    var out := Merged(views[..i], ops, force);
    if out != [] {
      var last := out[|out| - 1];
      assert views[..i][last.index] == views[last.index];
    }
  }

  /** `now` is how the children look at present. */
  predicate Shows(children: seq<Element>, now: seq<ChildView>)
    reads set c | c in children
  {
    |now| == |children| && forall j :: 0 <= j < |children| ==> ViewOf(children[j]) == now[j]
  }

  /** The callback keeps the child at `i` when it cannot merge it. */
  lemma KeepOutcome(children: seq<Element>, views: seq<ChildView>, now: seq<ChildView>, i: nat,
                    kept: seq<Element>, prev: Element?, prevKeys: Option<set<string>>, ops: PathOps, force: bool)
    requires i < |children|
    requires FilterState(children, views, now, i, kept, prev, prevKeys, ops, force)
    requires var out := Merged(views[..i], ops, force);
             out != [] && out[|out| - 1].index < |now| ==> !CanMerge(now[out[|out| - 1].index], now[i], ops, force)
    ensures FilterState(children, views, now, i + 1, kept + [children[i]], children[i], None, ops, force)
  {
    SeenByCallback(children, views, now, i, kept, prev, prevKeys, ops, force);
    MergedPrefix(views, i, ops, force);
    KeepState(children, views, now, i, kept, prev, prevKeys, Merged(views[..i], ops, force));
  }

  /** The outcome of the attribute and intersection tests, in terms of the views. */
  lemma MergeOutcome(children: seq<Element>, views: seq<ChildView>, now: seq<ChildView>, i: nat,
                     kept: seq<Element>, prev: Element?, prevKeys: Option<set<string>>,
                     merged: bool, attrs: map<string, Attribute>, ops: PathOps, force: bool)
    requires i < |children|
    requires FilterState(children, views, now, i, kept, prev, prevKeys, ops, force)
    requires prev != null
    ensures var out := Merged(views[..i], ops, force);
            && out != [] && prev == children[out[|out| - 1].index] && now[out[|out| - 1].index] == out[|out| - 1].view
            && now[i] == views[i]
            && (prevKeys.Some? ==> prevKeys.value == now[out[|out| - 1].index].attrs.Keys)
    ensures var out := Merged(views[..i], ops, force);
            var p := out[|out| - 1].index;
            merged == CanMerge(now[p], now[i], ops, force) && (merged ==> attrs == Joined(now[p], now[i], ops).attrs) ==>
              if merged
              then FilterState(children, views, now[p := now[p].(attrs := attrs)], i + 1, kept, prev, Some(attrs.Keys), ops, force)
              else !CanMerge(out[|out| - 1].view, views[i], ops, force)
  {
    SeenByCallback(children, views, now, i, kept, prev, prevKeys, ops, force);
    MergedPrefix(views, i, ops, force);
    var out := Merged(views[..i], ops, force);
    var m := |out| - 1;
    var p := out[m].index;
    if merged && merged == CanMerge(now[p], now[i], ops, force) && attrs == Joined(now[p], now[i], ops).attrs {
      var view := Joined(out[m].view, views[i], ops);
      assert Merged(views[..i + 1], ops, force) == out[..m] + [Kept(p, view)];
      MergeState(children, views, now, i, kept, prev, prevKeys, out, view);
    }
  }

  /**
   * The callback once `prev` (the child at `p`) and `cur` (the child at `i`)
   * are both plain paths, in terms of how the children look (`now`, and
   * `now'` afterwards).
   */
  method TryMerge(children: seq<Element>, ghost now: seq<ChildView>, ghost p: nat, ghost i: nat,
                  prev: Element, cur: Element, prevKeys: Option<set<string>>, ops: PathOps, force: bool)
    returns (merged: bool, keys: set<string>, ghost now': seq<ChildView>)
    requires p < |children| && i < |children| && prev == children[p] && cur == children[i] && prev != cur
    requires Distinct(children) && Shows(children, now)
    requires IsPlainPath(now[p]) && IsPlainPath(now[i])
    requires prevKeys.Some? ==> prevKeys.value == now[p].attrs.Keys
    modifies prev
    ensures merged == CanMerge(now[p], now[i], ops, force)
    ensures now' == now[p := now[p].(attrs := if merged then Joined(now[p], now[i], ops).attrs else now[p].attrs)]
    ensures Shows(children, now')
    ensures keys == now'[p].attrs.Keys
    ensures forall c :: c in children ==>
              c.content == old(c.content) && c.classes == old(c.classes) && c.style == old(c.style)
  {
    assert ViewOf(children[p]) == now[p] && ViewOf(children[i]) == now[i];
    merged, keys := MergeInto(prev, cur, prevKeys, ops, force, now[p], now[i]);
    forall j | 0 <= j < |children| && j != p ensures children[j].attrs == old(children[j].attrs) {
      assert children[j] != prev;
    }
    now' := now[p := now[p].(attrs := prev.attrs)];
    forall c | c in children
      ensures c.content == old(c.content) && c.classes == old(c.classes) && c.style == old(c.style)
    {
      if c != prev {
        assert unchanged(c);
      }
    }
  }

  /** The callback's first test: both the previous kept child and the current one are childless paths with a `d`. */
  method PlainPaths(prev: Element?, cur: Element) returns (plain: bool)
    ensures plain <==> prev != null && IsPlainPath(ViewOf(prev)) && IsPlainPath(ViewOf(cur))
  {
    plain := && prev != null
             && prev.IsElem(Named("path")) && prev.IsEmpty() && prev.HasAttr(AttrNamed("d"))
             && cur.IsElem(Named("path")) && cur.IsEmpty() && cur.HasAttr(AttrNamed("d"));
  }

  /** One call of the filter callback: the child at `i` is merged into `prev` or kept. */
  method Visit(children: seq<Element>, ghost views: seq<ChildView>, ghost now: seq<ChildView>, i: nat,
               kept: seq<Element>, prev: Element?, prevKeys: Option<set<string>>,
               ops: PathOps, force: bool)
    returns (kept': seq<Element>, prev': Element?, prevKeys': Option<set<string>>, ghost now': seq<ChildView>)
    requires i < |children|
    requires Shows(children, now)
    requires FilterState(children, views, now, i, kept, prev, prevKeys, ops, force)
    modifies set c | c in children
    ensures Shows(children, now')
    ensures FilterState(children, views, now', i + 1, kept', prev', prevKeys', ops, force)
    ensures forall c :: c in children ==>
              c.content == old(c.content) && c.classes == old(c.classes) && c.style == old(c.style)
  {
    var cur := children[i];
    SeenByCallback(children, views, now, i, kept, prev, prevKeys, ops, force);
    ghost var out := Merged(views[..i], ops, force);
    var plain := PlainPaths(prev, cur);
    if plain {
      ghost var p := out[|out| - 1].index;
      var merged, keys;
      merged, keys, now' := TryMerge(children, now, p, i, prev, cur, prevKeys, ops, force);
      MergeOutcome(children, views, now, i, kept, prev, prevKeys, merged, now'[p].attrs, ops, force);
      if merged {
        return kept, prev, Some(keys), now';
      }
      assert now' == now;
    } else if prev != null {
      assert ViewOf(prev) == now[out[|out| - 1].index] && ViewOf(cur) == now[i];
    }
    KeepOutcome(children, views, now, i, kept, prev, prevKeys, ops, force);
    return kept + [cur], cur, None, now;
  }

  /**
   * `fn`: in an element with children, replaces the children by those the
   * filter keeps, each path absorbing the paths merged into it.  A dropped
   * child is left as it was.
   */
  method Fn(item: Element, ops: PathOps, force: bool)
    requires item !in item.content
    requires Distinct(item.content)
    modifies item, set c | c in item.content
    ensures item.elem == "" || old(item.content) == [] ==>
              item.content == old(item.content) && forall c :: c in item.content ==> c.attrs == old(c.attrs)
    ensures item.elem != "" && old(item.content) != [] ==>
              Mirrors(item.content, old(item.content), Merged(old(Views(item.content)), ops, force))
    ensures forall c :: c in old(item.content) && c !in item.content ==> c.attrs == old(c.attrs)
    ensures forall c :: c in old(item.content) ==>
              c.content == old(c.content) && c.classes == old(c.classes) && c.style == old(c.style)
    ensures item.attrs == old(item.attrs) && item.classes == old(item.classes) && item.style == old(item.style)
  {
    if !item.IsElem(AnyElement) || item.IsEmpty() {
      return;
    }
    Prune(item, ops, force);
  }

  /** The pass on an element that has children: `item.content` becomes the children kept. */
  method Prune(item: Element, ops: PathOps, force: bool)
    requires item.elem != "" && item.content != []
    requires item !in item.content
    requires Distinct(item.content)
    modifies item, set c | c in item.content
    ensures Mirrors(item.content, old(item.content), Merged(old(Views(item.content)), ops, force))
    ensures forall c :: c in old(item.content) && c !in item.content ==> c.attrs == old(c.attrs)
    ensures forall c :: c in old(item.content) ==>
              c.content == old(c.content) && c.classes == old(c.classes) && c.style == old(c.style)
    ensures item.attrs == old(item.attrs) && item.classes == old(item.classes) && item.style == old(item.style)
  {
    var children := item.content;
    ghost var views := Views(children);
    assert Shows(children, views);
    var kept := Filter(children, views, ops, force);
    assert item.attrs == old(item.attrs) && item.classes == old(item.classes) && item.style == old(item.style);
    ghost var r := Merged(views, ops, force);
    assert Mirrors(kept, children, r);
    assert item !in kept;
    item.content := kept;
    assert Mirrors(kept, children, r);
  }

  /** `item.content.filter(...)`: the children kept, in order, given what they look like beforehand. */
  method Filter(children: seq<Element>, ghost views: seq<ChildView>, ops: PathOps, force: bool) returns (kept: seq<Element>)
    requires Distinct(children) && Shows(children, views)
    modifies set c | c in children
    ensures Mirrors(kept, children, Merged(views, ops, force))
    ensures forall c :: c in kept ==> c in children
    ensures forall c :: c in children && c !in kept ==> c.attrs == old(c.attrs)
    ensures forall j :: 0 <= j < |children| && children[j] !in kept ==> children[j].attrs == views[j].attrs
    ensures forall c :: c in children ==>
              c.content == old(c.content) && c.classes == old(c.classes) && c.style == old(c.style)
  {
    ghost var now := views;
    kept := [];
    var prev: Element? := null;
    var prevKeys: Option<set<string>> := None;
    for i := 0 to |children|
      invariant Shows(children, now)
      invariant FilterState(children, views, now, i, kept, prev, prevKeys, ops, force)
      invariant forall c :: c in children ==>
                  c.content == old(c.content) && c.classes == old(c.classes) && c.style == old(c.style)
    {
      kept, prev, prevKeys, now := Visit(children, views, now, i, kept, prev, prevKeys, ops, force);
    }
    assert views[..|children|] == views;
    FilterDone(children, views, now, kept, prev, prevKeys, Merged(views, ops, force));
    forall c | c in children && c !in kept ensures c.attrs == old(c.attrs) {
      var j :| 0 <= j < |children| && children[j] == c;
      assert old(ViewOf(children[j])) == views[j];
    }
  }

  /** Once every child is visited, the kept elements carry the merged attributes and the dropped ones their old ones. */
  lemma FilterDone(children: seq<Element>, views: seq<ChildView>, now: seq<ChildView>, kept: seq<Element>,
                   prev: Element?, prevKeys: Option<set<string>>, r: seq<Kept>)
    requires Shows(children, now)
    requires StateOf(children, views, now, |children|, kept, prev, prevKeys, r)
    ensures Mirrors(kept, children, r)
    ensures forall j :: 0 <= j < |children| && children[j] !in kept ==> children[j].attrs == views[j].attrs
  {
    forall k | 0 <= k < |kept|
      ensures r[k].index < |children| && kept[k] == children[r[k].index] && kept[k].attrs == r[k].view.attrs
    {
      assert ViewOf(children[r[k].index]) == now[r[k].index];
    }
    forall j | 0 <= j < |children| && children[j] !in kept
      ensures children[j].attrs == views[j].attrs
    {
      assert ViewOf(children[j]) == now[j];
    }
  }
}
