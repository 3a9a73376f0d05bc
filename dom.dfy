/**
 * The element API that every pass uses (the JSAPI object of the parser's
 * document tree), as its behaviour is fixed by test/svg2js/_index.js.
 *
 * A node of the tree is an `Element`.  Non-element nodes (text, comments,
 * CDATA) are `Element`s whose `elem` is empty, just as a JSAPI node without an
 * `elem` property answers `isElem()` with false.
 */
module Dom {
  import opened Wrappers

  /** One attribute as the parser stores it. */
  datatype Attribute = Attribute(name: string, value: string, prefix: string, local: string)

  /** The argument object of `addAttr`: any of its fields may be missing. */
  datatype AttrSpec = AttrSpec(name: Option<string>, value: Option<string>,
                               prefix: Option<string>, local: Option<string>)

  /** The three call shapes of `isElem`: no argument, one name, a list of names. */
  datatype NameTest = AnyElement | Named(name: string) | OneOf(names: seq<string>)

  /** The three call shapes of `hasAttr`, `attr` and `removeAttr`. */
  datatype AttrQuery = AnyAttr | AttrNamed(name: string) | AttrWithValue(name: string, value: string)

  /** CSS declaration priority; '' orders before 'important'. */
  datatype Priority = Normal | Important {
    function Rank(): nat { if Important? then 1 else 0 }
    /** The string comparison `a >= b` of the two priority strings. */
    predicate AtLeast(other: Priority) { Rank() >= other.Rank() }
  }

  /** One property of an element's inline style. */
  datatype StyleValue = StyleValue(value: string, priority: Priority)

  /** Class tokens joined by single spaces: the value the class list gives the `class` attribute. */
  function JoinClasses(classes: seq<string>): string {
    if |classes| == 0 then ""
    else if |classes| == 1 then classes[0]
    else classes[0] + " " + JoinClasses(classes[1..])
  }

  /** `s` with every occurrence of `x` removed (deleting a token from a set of tokens). */
  function Without(s: seq<string>, x: string): (r: seq<string>)
    ensures x !in r
    ensures forall y :: y in r <==> y in s && y != x
    ensures |r| <= |s|
  {
    if s == [] then [] else if s[0] == x then Without(s[1..], x) else [s[0]] + Without(s[1..], x)
  }

  /** Every attribute is stored under its own name, as the parser and `addAttr` store them. */
  predicate WellKeyed(attrs: map<string, Attribute>) {
    forall n :: n in attrs ==> attrs[n].name == n
  }

  /** The attributes an `AttrQuery` selects, as `hasAttr` decides it. */
  predicate AttrsHave(attrs: map<string, Attribute>, q: AttrQuery) {
    && attrs != map[]
    && match q
       case AnyAttr => true
       case AttrNamed(n) => n in attrs
       case AttrWithValue(n, v) => n in attrs && attrs[n].value == v
  }

  class Element {
    const elem: string
    var attrs: map<string, Attribute>
    var content: seq<Element>
    var parentNode: Element?
    /** The class list (the `class` attribute as a set of tokens). */
    var classes: seq<string>
    /** The inline style (the `style` attribute as declarations). */
    var style: map<string, StyleValue>
    /** The character data of a text or CDATA node. */
    var text: string

    constructor (elem: string, attrs: map<string, Attribute>, content: seq<Element>)
      ensures this.elem == elem && this.attrs == attrs && this.content == content
      ensures parentNode == null && classes == [] && style == map[] && text == ""
    {
      this.elem := elem;
      this.attrs := attrs;
      this.content := content;
      parentNode := null;
      classes := [];
      style := map[];
      text := "";
    }

    /** `isElem()`, `isElem(name)`, `isElem([names])`. */
    predicate IsElem(test: NameTest)
    {
      && elem != ""
      && match test
         case AnyElement => true
         case Named(n) => elem == n
         case OneOf(ns) => elem in ns
    }

    /** `isEmpty()`: the node has no children. */
    predicate IsEmpty()
      reads this
    {
      content == []
    }

    /** `hasAttr()`, `hasAttr(name)`, `hasAttr(name, value)`. */
    predicate HasAttr(q: AttrQuery)
      reads this
    {
      AttrsHave(attrs, q)
    }

    /** `attr()`, `attr(name)`, `attr(name, value)`: the attribute, or undefined. */
    function Attr(q: AttrQuery): (r: Option<Attribute>)
      reads this
      ensures r.Some? <==> !q.AnyAttr? && HasAttr(q)
      ensures r.Some? ==> r.value == attrs[q.name]
    {
      match q
      case AnyAttr => None
      case _ => if HasAttr(q) then Some(attrs[q.name]) else None
    }

    /**
     * `removeAttr()`, `removeAttr(name)`, `removeAttr(name, value)`: deletes the
     * attribute when it is present (with that value, when one is given) and
     * answers whether it did.
     */
    method RemoveAttr(q: AttrQuery) returns (removed: bool)
      modifies this
      ensures removed <==> !q.AnyAttr? && old(HasAttr(q))
      ensures removed ==> !HasAttr(AttrNamed(q.name)) && attrs == old(attrs) - {q.name}
      ensures !removed ==> attrs == old(attrs)
      ensures content == old(content) && classes == old(classes) && style == old(style)
      ensures parentNode == old(parentNode) && text == old(text)
    {
      if q.AnyAttr? || !HasAttr(q) {
        return false;
      }
      attrs := attrs - {q.name};
      return true;
    }

    /**
     * `addAttr(attr)`: stores the attribute under its name and returns it when
     * its name, value, prefix and local name are all given; false otherwise.
     */
    method AddAttr(spec: AttrSpec) returns (r: Option<Attribute>)
      modifies this
      ensures r.Some? <==> spec.name.Some? && spec.value.Some? && spec.prefix.Some? && spec.local.Some?
      ensures r.Some? ==> r.value == Attribute(spec.name.value, spec.value.value, spec.prefix.value, spec.local.value)
      ensures r.Some? ==> attrs == old(attrs)[r.value.name := r.value] && Attr(AttrNamed(r.value.name)) == r
      ensures r.None? ==> attrs == old(attrs)
      ensures content == old(content) && classes == old(classes) && style == old(style)
      ensures parentNode == old(parentNode) && text == old(text)
    {
      if spec.name.None? || spec.value.None? || spec.prefix.None? || spec.local.None? {
        return None;
      }
      var a := Attribute(spec.name.value, spec.value.value, spec.prefix.value, spec.local.value);
      attrs := attrs[a.name := a];
      assert a.name in attrs && attrs != map[];
      return Some(a);
    }

    /**
     * `eachAttr(callback)`: applies the callback to every attribute (the
     * callback's update of an attribute object is its result here) and answers
     * true; answers false, changing nothing, when there are no attributes.
     */
    method EachAttr(f: Attribute -> Attribute) returns (r: bool)
      modifies this
      ensures r <==> old(attrs) != map[]
      ensures attrs.Keys == old(attrs).Keys
      ensures forall n :: n in attrs ==> attrs[n] == f(old(attrs)[n])
      ensures content == old(content) && classes == old(classes) && style == old(style)
      ensures parentNode == old(parentNode) && text == old(text)
    {
      if !HasAttr(AnyAttr) {
        return false;
      }
      var todo := attrs.Keys;
      while todo != {}
        invariant todo <= attrs.Keys && attrs.Keys == old(attrs).Keys
        invariant forall n :: n in attrs && n !in todo ==> attrs[n] == f(old(attrs)[n])
        invariant forall n :: n in todo ==> attrs[n] == old(attrs)[n]
        invariant content == old(content) && classes == old(classes) && style == old(style)
        invariant parentNode == old(parentNode) && text == old(text)
        decreases todo
      {
        var n :| n in todo;
        attrs := attrs[n := f(attrs[n])];
        todo := todo - {n};
      }
      return true;
    }

    /**
     * `class.remove(name)`: deletes the token from the class list; the
     * `class` attribute, when present, shows the remaining tokens.
     */
    method RemoveClass(name: string)
      modifies this
      ensures classes == Without(old(classes), name)
      ensures "class" in old(attrs) ==> attrs == old(attrs)["class" := old(attrs)["class"].(value := JoinClasses(classes))]
      ensures "class" !in old(attrs) ==> attrs == old(attrs)
      ensures content == old(content) && style == old(style) && parentNode == old(parentNode) && text == old(text)
    {
      classes := Without(classes, name);
      if "class" in attrs {
        attrs := attrs["class" := attrs["class"].(value := JoinClasses(classes))];
      }
    }

    /**
     * `spliceContent(start, 1)` at the index `content.indexOf(child)` returns:
     * JavaScript's `splice` with start -1 removes the last child.
     */
    method RemoveChildAt(index: int)
      requires -1 <= index < |content|
      modifies this
      ensures content == old(SpliceOne(content, index))
      ensures attrs == old(attrs) && classes == old(classes) && style == old(style)
      ensures parentNode == old(parentNode) && text == old(text)
    {
      content := SpliceOne(content, index);
    }
  }

  /** `content.indexOf(x)`: the first index of `x`, or -1. */
  function IndexOf<T(==)>(s: seq<T>, x: T): (i: int)
    ensures -1 <= i < |s|
    ensures i == -1 <==> x !in s
    ensures 0 <= i ==> s[i] == x && x !in s[..i]
  {
    if s == [] then -1
    else if s[0] == x then 0
    else var j := IndexOf(s[1..], x); if j == -1 then -1 else j + 1
  }

  /** `s.splice(start, 1)` for -1 <= start: a negative start counts from the end. */
  function SpliceOne<T>(s: seq<T>, start: int): (r: seq<T>)
    requires -1 <= start < |s|
    ensures 0 <= start ==> r == s[..start] + s[start + 1..]
    ensures start == -1 && s != [] ==> r == s[..|s| - 1]
    ensures start == -1 && s == [] ==> r == []
  {
    if start == -1 then (if s == [] then [] else s[..|s| - 1]) else s[..start] + s[start + 1..]
  }

  /**
   * `parent.spliceContent(parent.content.indexOf(child), 1)` as a whole: one
   * occurrence of `child` leaves the children; when `child` is not among
   * them, -1 makes the splice drop the last child instead.
   */
  function Detached<T(==)>(content: seq<T>, child: T): seq<T>
  {
    SpliceOne(content, IndexOf(content, child))
  }

  /**
   * `splice(indexOf(child), 1)` takes one occurrence of a present child out;
   * for a missing child `indexOf` gives -1 and the last element goes instead.
   */
  lemma DetachedSpec<T>(content: seq<T>, child: T)
    ensures child in content ==> multiset(Detached(content, child)) == multiset(content) - multiset{child}
    ensures child !in content ==> Detached(content, child) == (if content == [] then [] else content[..|content| - 1])
    ensures multiset(Detached(content, child)) <= multiset(content)
    ensures multiset(content)[child] <= 1 ==> child !in Detached(content, child)
  {
    var i := IndexOf(content, child);
    assert 0 <= i ==> content == content[..i] + [content[i]] + content[i + 1..];
    assert i < 0 && content != [] ==> content == content[..|content| - 1] + [content[|content| - 1]];
  }
}
