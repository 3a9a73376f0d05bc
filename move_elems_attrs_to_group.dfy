/**
 * The moveElemsAttrsToGroup pass (plugins/moveElemsAttrsToGroup.js), run
 * bottom-up on every item: the inheritable attributes that all children of a
 * `g` carry identically move onto the group.
 */
module MoveElemsAttrsToGroup {
  import opened Wrappers
  import opened Dom

  /** The inheritable attributes of `a` that `b` carries with the same name, value, prefix and local name. */
  function Common(a: map<string, Attribute>, b: map<string, Attribute>, inheritable: seq<string>): map<string, Attribute>
  {
    map n | n in a && n in b && n in inheritable && a[n] == b[n] :: a[n]
  }

  /**
   * `intersectInheritableAttrs(a, b)`: a fresh map of the attributes of `a`
   * that are inheritable and identical in `b`, or false (None) when there are
   * none.
   */
  method IntersectInheritableAttrs(a: map<string, Attribute>, b: map<string, Attribute>, inheritable: seq<string>)
    returns (r: Option<map<string, Attribute>>)
    ensures r.None? <==> forall n :: n in a && n in b && n in inheritable ==> a[n] != b[n]
    ensures r.Some? ==> forall n :: n in r.value <==> n in a && n in b && n in inheritable && a[n] == b[n]
    ensures r.Some? ==> forall n :: n in r.value ==> r.value[n] == a[n] && r.value[n] == b[n]
    ensures r == (var c := Common(a, b, inheritable); if c == map[] then None else Some(c))
  {
    var c: map<string, Attribute> := map[];
    var todo := a.Keys;
    while todo != {}
      invariant todo <= a.Keys
      invariant forall n :: n in c <==> n in a && n !in todo && n in b && n in inheritable && a[n] == b[n]
      invariant forall n :: n in c ==> c[n] == a[n]
      decreases todo
    {
      var n :| n in todo;
      if n in b && n in inheritable && a[n] == b[n] {
        c := c[n := a[n]];
      }
      todo := todo - {n};
    }
    assert c == Common(a, b, inheritable);
    if c == map[] {
      assert forall n :: n !in c;
      return None;
    }
    return Some(c);
  }

  /** What the `every` callback looks at in one child. */
  datatype ChildView = ChildView(isElem: bool, attrs: map<string, Attribute>)

  function Views(children: seq<Element>): (r: seq<ChildView>)
    reads set c | c in children
    ensures |r| == |children|
    ensures forall k :: 0 <= k < |children| ==> r[k] == ChildView(children[k].elem != "", children[k].attrs)
  {
    if children == [] then [] else [ChildView(children[0].elem != "", children[0].attrs)] + Views(children[1..])
  }

  /** A child the callback can accept: an element with attributes and without `class`. */
  predicate Qualifies(v: ChildView)
  {
    v.isElem && v.attrs != map[] && "class" !in v.attrs
  }

  /**
   * One call of the `every` callback: the next running intersection, or None
   * when the callback answers false (or undefined) and `every` stops.
   */
  function Step(acc: map<string, Attribute>, v: ChildView, inheritable: seq<string>): Option<map<string, Attribute>>
  {
    if !(v.isElem && v.attrs != map[]) then None
    else if "class" in v.attrs then None
    else if acc == map[] then Some(v.attrs)
    else
      var c := Common(acc, v.attrs, inheritable);
      if c == map[] then None else Some(c)
  }

  /** The running intersection after the callback has seen `views`, or None once `every` has answered false. */
  function Intersected(views: seq<ChildView>, inheritable: seq<string>): Option<map<string, Attribute>>
  {
    if views == [] then Some(map[])
    else match Intersected(views[..|views| - 1], inheritable)
      case None => None
      case Some(acc) => Step(acc, views[|views| - 1], inheritable)
  }

  /**
   * The reference definition: the inheritable attributes that every child
   * carries identically (read off the first child).
   */
  function CommonToAll(views: seq<ChildView>, inheritable: seq<string>): map<string, Attribute>
    requires views != []
  {
    map n | n in views[0].attrs && n in inheritable &&
            (forall k :: 0 <= k < |views| ==> n in views[k].attrs && views[k].attrs[n] == views[0].attrs[n])
      :: views[0].attrs[n]
  }

  lemma CommonToAllStep(views: seq<ChildView>, inheritable: seq<string>)
    requires |views| >= 2
    ensures CommonToAll(views, inheritable) ==
            Common(CommonToAll(views[..|views| - 1], inheritable), views[|views| - 1].attrs, inheritable)
  {
    var prefix := views[..|views| - 1];
    var last := views[|views| - 1];
    var lhs := CommonToAll(views, inheritable);
    var rhs := Common(CommonToAll(prefix, inheritable), last.attrs, inheritable);
    forall n ensures n in lhs <==> n in rhs {
      if n in rhs {
        forall k | 0 <= k < |views| ensures n in views[k].attrs && views[k].attrs[n] == views[0].attrs[n] {
          if k < |views| - 1 { assert views[k] == prefix[k]; }
        }
      }
    }
  }

  /** The every-loop computes exactly the common inheritable attributes, once there are at least two children. */
  lemma {:induction false} IntersectedIsCommonToAll(views: seq<ChildView>, inheritable: seq<string>)
    requires |views| >= 2
    ensures Intersected(views, inheritable) ==
            if (forall k :: 0 <= k < |views| ==> Qualifies(views[k])) && CommonToAll(views, inheritable) != map[]
            then Some(CommonToAll(views, inheritable)) else None
  {
    var prefix := views[..|views| - 1];
    var last := views[|views| - 1];
    CommonToAllStep(views, inheritable);
    if |views| == 2 {
      assert prefix[..0] == [];
      if Qualifies(views[0]) {
        assert Intersected(prefix, inheritable) == Some(views[0].attrs);
        assert Common(views[0].attrs, last.attrs, inheritable) == Common(CommonToAll(prefix, inheritable), last.attrs, inheritable);
      }
    } else {
      IntersectedIsCommonToAll(prefix, inheritable);
      if CommonToAll(prefix, inheritable) == map[] {
        assert CommonToAll(views, inheritable) == map[];
      }
      if !(forall k :: 0 <= k < |prefix| ==> Qualifies(prefix[k])) {
        var k :| 0 <= k < |prefix| && !Qualifies(prefix[k]);
        assert views[k] == prefix[k];
      }
    }
  }

  lemma IntersectedSnoc(views: seq<ChildView>, i: nat, inheritable: seq<string>)
    requires i < |views|
    ensures Intersected(views[..i + 1], inheritable) ==
            match Intersected(views[..i], inheritable)
            case None => None
            case Some(acc) => Step(acc, views[i], inheritable)
  {
    assert views[..i + 1][..i] == views[..i];
  }

  /** Once the callback has answered false, `every` answers false. */
  lemma {:induction false} IntersectedStaysNone(views: seq<ChildView>, i: nat, inheritable: seq<string>)
    requires i <= |views|
    requires Intersected(views[..i], inheritable).None?
    ensures Intersected(views, inheritable).None?
    decreases |views| - i
  {
    if i < |views| {
      IntersectedStaysNone(views, i + 1, inheritable) by {
        assert views[..i + 1][..i] == views[..i];
      }
    } else {
      assert views[..i] == views;
    }
  }

  /** The attributes that move: the intersection, less `transform` when it has to stay on the children. */
  function Moved(intersection: map<string, Attribute>, allPath: bool, hasClip: bool): set<string>
  {
    if allPath || hasClip then intersection.Keys - {"transform"} else intersection.Keys
  }

  /**
   * The group's attributes once the names in `done` have been moved onto it:
   * each is set to the intersected attribute, except that a moved `transform`
   * is appended after one space to a `transform` the group already has.
   */
  function Hoisted(group: map<string, Attribute>, intersection: map<string, Attribute>, done: set<string>): map<string, Attribute>
    requires done <= intersection.Keys
  {
    var plain := map n | n in done && n != "transform" :: intersection[n];
    if "transform" in done then
      (group + plain)["transform" :=
        if "transform" in group
        then group["transform"].(value := group["transform"].value + " " + intersection["transform"].value)
        else intersection["transform"]]
    else group + plain
  }

  lemma HoistedPlain(group: map<string, Attribute>, intersection: map<string, Attribute>, done: set<string>, n: string)
    requires done <= intersection.Keys && n in intersection && n != "transform"
    ensures Hoisted(group, intersection, done + {n}) == Hoisted(group, intersection, done)[n := intersection[n]]
  {
  }

  lemma HoistedTransform(group: map<string, Attribute>, intersection: map<string, Attribute>, done: set<string>)
    requires done <= intersection.Keys && "transform" in intersection && "transform" !in done
    ensures var h := Hoisted(group, intersection, done);
            && ("transform" in h <==> "transform" in group)
            && ("transform" in h ==> h["transform"] == group["transform"])
            && Hoisted(group, intersection, done + {"transform"}) ==
               h["transform" := if "transform" in h
                                then h["transform"].(value := h["transform"].value + " " + intersection["transform"].value)
                                else intersection["transform"]]
  {
  }

  predicate AllPath(children: seq<Element>, pathElems: seq<string>)
  {
    forall k :: 0 <= k < |children| ==> children[k].IsElem(OneOf(pathElems))
  }

  /** The `every` callback for one child, given the running intersection. */
  method Callback(intersection: map<string, Attribute>, inner: Element, inheritable: seq<string>)
    returns (r: Option<map<string, Attribute>>)
    requires WellKeyed(intersection) && WellKeyed(inner.attrs)
    ensures r == Step(intersection, ChildView(inner.elem != "", inner.attrs), inheritable)
    ensures r.Some? ==> WellKeyed(r.value)
  {
    if !(inner.IsElem(AnyElement) && inner.HasAttr(AnyAttr)) || inner.HasAttr(AttrNamed("class")) {
      return None;
    }
    if intersection == map[] {
      return Some(inner.attrs);
    }
    r := IntersectInheritableAttrs(intersection, inner.attrs, inheritable);
  }

  /**
   * The `every` call over the children: the intersection of their inheritable
   * attributes, or None when some child is not an element with attributes, has
   * `class`, or shares nothing with the children before it.
   */
  method Intersect(children: seq<Element>, inheritable: seq<string>) returns (r: Option<map<string, Attribute>>)
    requires forall c :: c in children ==> WellKeyed(c.attrs)
    ensures r == Intersected(Views(children), inheritable)
    ensures r.Some? ==> WellKeyed(r.value)
  {
    ghost var views := Views(children);
    var intersection: map<string, Attribute> := map[];
    var i := 0;
    while i < |children|
      invariant 0 <= i <= |children|
      invariant Intersected(views[..i], inheritable) == Some(intersection)
      invariant WellKeyed(intersection)
    {
      var inner := children[i];
      IntersectedSnoc(views, i, inheritable);
      assert views[i] == ChildView(inner.elem != "", inner.attrs);
      var next := Callback(intersection, inner, inheritable);
      if next.None? {
        IntersectedStaysNone(views, i + 1, inheritable);
        return None;
      }
      intersection := next.value;
      i := i + 1;
    }
    assert views[..i] == views;
    return Some(intersection);
  }

  lemma RemoveOneMore(m: map<string, Attribute>, gone: set<string>, n: string)
    ensures m - gone - {n} == m - (gone + {n})
  {
  }

  /** The bookkeeping of one turn of the loop over the intersection's names. */
  lemma NameStep(done: set<string>, gone: set<string>, moved: set<string>, names: set<string>, name: string)
    requires gone == moved - names && name in names
    ensures name in moved ==> gone + {name} == moved - (names - {name})
    ensures name !in moved ==> gone == moved - (names - {name})
    ensures done + gone + {name} == done + (gone + {name})
  {
  }

  lemma RemoveTwice(m: map<string, Attribute>, gone: set<string>)
    ensures m - gone - gone == m - gone
  {
  }

  lemma PrefixGrows(s: seq<Element>, j: nat)
    requires j < |s|
    ensures forall x :: x in s[..j + 1] <==> x in s[..j] || x == s[j]
  {
    assert s[..j + 1] == s[..j] + [s[j]];
  }

  /** The body of the inner `for (const name in intersection)` loop, for one name that moves. */
  method MoveName(item: Element, g: Element, intersection: map<string, Attribute>, allPath: bool, hasClip: bool,
                  hasTransform: bool, name: string, ghost group: map<string, Attribute>, ghost x: set<string>)
    returns (hasTransform': bool)
    requires g != item && WellKeyed(intersection) && name in intersection && x <= intersection.Keys
    requires item.attrs == Hoisted(group, intersection, x)
    requires hasTransform <==> "transform" in x
    requires (!allPath && !hasClip) || name != "transform"
    modifies item, g
    ensures g.attrs == old(g.attrs) - {name}
    ensures item.attrs == Hoisted(group, intersection, x + {name})
    ensures hasTransform' <==> "transform" in x + {name}
    ensures g.style == old(g.style) && g.classes == old(g.classes) && g.content == old(g.content)
    ensures item.style == old(item.style) && item.classes == old(item.classes) && item.content == old(item.content)
  {
    hasTransform' := hasTransform;
    var _ := g.RemoveAttr(AttrNamed(name));
    var a := intersection[name];
    if name == "transform" {
      if !hasTransform {
        HoistedTransform(group, intersection, x);
        if item.HasAttr(AttrNamed("transform")) {
          var t := item.attrs["transform"];
          item.attrs := item.attrs["transform" := t.(value := t.value + " " + a.value)];
        } else {
          var _ := item.AddAttr(AttrSpec(Some(a.name), Some(a.value), Some(a.prefix), Some(a.local)));
        }
        hasTransform' := true;
      } else {
        assert x + {name} == x;
      }
    } else {
      HoistedPlain(group, intersection, x, name);
      var _ := item.AddAttr(AttrSpec(Some(a.name), Some(a.value), Some(a.prefix), Some(a.local)));
    }
  }

  /**
   * The forEach body for one child `g`: the moved names leave `g` and are set
   * on the group.  `done` is what earlier children already moved (nothing, or
   * all of `moved`); `hasTransform` records whether `transform` was handled.
   */
  method MoveFromChild(item: Element, g: Element, intersection: map<string, Attribute>, allPath: bool, hasClip: bool,
                       hasTransform: bool, ghost group: map<string, Attribute>, ghost done: set<string>)
    returns (hasTransform': bool)
    requires g != item && WellKeyed(intersection)
    requires done == {} || done == Moved(intersection, allPath, hasClip)
    requires item.attrs == Hoisted(group, intersection, done)
    requires hasTransform <==> "transform" in done
    modifies item, g
    ensures g.attrs == old(g.attrs) - Moved(intersection, allPath, hasClip)
    ensures item.attrs == Hoisted(group, intersection, Moved(intersection, allPath, hasClip))
    ensures hasTransform' <==> "transform" in Moved(intersection, allPath, hasClip)
    ensures g.style == old(g.style) && g.classes == old(g.classes) && g.content == old(g.content)
    ensures item.style == old(item.style) && item.classes == old(item.classes) && item.content == old(item.content)
  {
    ghost var moved := Moved(intersection, allPath, hasClip);
    hasTransform' := hasTransform;
    var names := intersection.Keys;
    ghost var gone: set<string> := {};
    assert done + gone == done;
    while names != {}
      invariant names <= intersection.Keys && gone == moved - names
      invariant g.attrs == old(g.attrs) - gone
      invariant item.attrs == Hoisted(group, intersection, done + gone)
      invariant hasTransform' <==> "transform" in done + gone
      invariant g.style == old(g.style) && g.classes == old(g.classes) && g.content == old(g.content)
      invariant item.style == old(item.style) && item.classes == old(item.classes) && item.content == old(item.content)
      decreases names
    {
      var name :| name in names;
      NameStep(done, gone, moved, names, name);
      if (!allPath && !hasClip) || name != "transform" {
        assert name in moved;
        hasTransform' := MoveName(item, g, intersection, allPath, hasClip, hasTransform', name, group, done + gone);
        RemoveOneMore(old(g.attrs), gone, name);
        gone := gone + {name};
      } else {
        assert name !in moved;
      }
      names := names - {name};
    }
    assert done + gone == moved;
  }

  /** The forEach over the children, once the intersection is known. */
  method MoveAll(item: Element, intersection: map<string, Attribute>, allPath: bool, hasClip: bool)
    requires item !in item.content && |item.content| > 1 && WellKeyed(intersection)
    modifies item, set c | c in item.content
    ensures item.content == old(item.content)
    ensures item.attrs == Hoisted(old(item.attrs), intersection, Moved(intersection, allPath, hasClip))
    ensures forall c :: c in item.content ==> c.attrs == old(c.attrs) - Moved(intersection, allPath, hasClip)
    ensures forall c :: c in item.content ==> c.style == old(c.style) && c.classes == old(c.classes) && c.content == old(c.content)
    ensures item.style == old(item.style) && item.classes == old(item.classes)
  {
    ghost var moved := Moved(intersection, allPath, hasClip);
    var hasTransform := false;
    assert item.attrs == Hoisted(old(item.attrs), intersection, {});

    var children := item.content;
    var j := 0;
    while j < |children|
      invariant 0 <= j <= |children|
      invariant forall c :: c in children ==> c.attrs == (if c in children[..j] then old(c.attrs) - moved else old(c.attrs))
      invariant item.attrs == Hoisted(old(item.attrs), intersection, if j == 0 then {} else moved)
      invariant hasTransform <==> j > 0 && "transform" in moved
      invariant forall c :: c in children ==> c.style == old(c.style) && c.classes == old(c.classes) && c.content == old(c.content)
      invariant item.style == old(item.style) && item.classes == old(item.classes) && item.content == children
    {
      var g := children[j];
      ghost var gBefore := g.attrs;
      assert gBefore == (if g in children[..j] then old(g.attrs) - moved else old(g.attrs));
      label before:
      hasTransform := MoveFromChild(item, g, intersection, allPath, hasClip, hasTransform,
                                    old(item.attrs), if j == 0 then {} else moved);
      PrefixGrows(children, j);
      forall c | c in children
        ensures c.attrs == (if c in children[..j + 1] then old(c.attrs) - moved else old(c.attrs))
        ensures c.style == old(c.style) && c.classes == old(c.classes) && c.content == old(c.content)
      {
        if c == g {
          assert c.attrs == gBefore - moved;
          RemoveTwice(old(c.attrs), moved);
        } else {
          assert c.attrs == old@before(c.attrs) && c.style == old@before(c.style);
        }
      }
      j := j + 1;
    }
    assert children[..j] == children;
    assert forall c :: c in children ==> c.attrs == old(c.attrs) - moved;
  }

  /**
   * The per-item function.  For a `g` with more than one child whose children
   * are all elements with attributes and without `class`, and which share at
   * least one inheritable attribute, the shared attributes are removed from
   * every child and set on the group (`transform` appended to the group's own);
   * `transform` stays on the children when all of them are path elements or the
   * group has `clip-path` or `mask`.  Otherwise nothing changes.
   */
  method Fn(item: Element, inheritableAttrs: seq<string>, pathElems: seq<string>)
    requires item !in item.content
    requires forall c :: c in item.content ==> WellKeyed(c.attrs)
    modifies item, set c | c in item.content
    ensures item.content == old(item.content)
    ensures var I := Intersected(old(Views(item.content)), inheritableAttrs);
            if item.elem == "g" && |item.content| > 1 && I.Some? then
              var moved := Moved(I.value, AllPath(item.content, pathElems),
                                 "clip-path" in old(item.attrs) || "mask" in old(item.attrs));
              && moved <= I.value.Keys
              && item.attrs == Hoisted(old(item.attrs), I.value, moved)
              && forall c :: c in item.content ==> c.attrs == old(c.attrs) - moved
            else
              && item.attrs == old(item.attrs)
              && forall c :: c in item.content ==> c.attrs == old(c.attrs)
    ensures forall c :: c in item.content ==> c.style == old(c.style) && c.classes == old(c.classes) && c.content == old(c.content)
    ensures item.style == old(item.style) && item.classes == old(item.classes)
  {
    if !(item.IsElem(Named("g")) && !item.IsEmpty() && |item.content| > 1) {
      return;
    }
    var hasClip := item.HasAttr(AttrNamed("clip-path")) || item.HasAttr(AttrNamed("mask"));
    var intersected := Intersect(item.content, inheritableAttrs);
    assert intersected == Intersected(old(Views(item.content)), inheritableAttrs);
    assert hasClip == ("clip-path" in old(item.attrs) || "mask" in old(item.attrs));
    if intersected.None? {
      return;
    }
    var intersection := intersected.value;
    var allPath := AllPath(item.content, pathElems);
    MoveAll(item, intersection, allPath, hasClip);
  }
}