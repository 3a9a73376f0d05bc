/**
 * The inlineStyles pass (plugins/inlineStyles.js): the declarations of the
 * `<style>` sheets are copied into the inline styles of the elements their
 * selectors match, the selectors so applied are deleted from their rules,
 * the matched class and id values are cleaned up, and rules, sheets and
 * `defs` left empty are removed.
 *
 * The CSS parser and printer, `flattenToSelectors` with the media query and
 * pseudo-class filters and the specificity sort, and `querySelectorAll` are
 * parameters.
 */
module InlineStyles {
  import opened Wrappers
  import opened Dom

  // ---------------------------------------------------------------------------
  // The stylesheet

  /** `csstreeToStyleDeclaration`: a property, its value and its priority. */
  datatype Declaration = Declaration(name: string, value: string, priority: Priority)

  /** The first component of a selector, the one the class and id cleanup looks at. */
  datatype First = ClassSelector(name: string) | IdSelector(name: string) | OtherSelector

  /**
   * One selector of a rule's selector list.  `key` tells list items apart
   * (the list item object `selector.item`); `text` is what
   * `csstree.generate` prints for it.
   */
  datatype SelectorItem = SelectorItem(key: nat, first: First, text: string)

  /**
   * A node of a stylesheet: a rule, an at-rule (`hasBlock` is false for one
   * whose block is null, such as `@import`), or anything else.
   */
  datatype CssNode =
    | Rule(prelude: seq<SelectorItem>, decls: seq<Declaration>)
    | Atrule(name: string, hasBlock: bool, block: seq<CssNode>)
    | Other(text: string)

  // ---------------------------------------------------------------------------
  // Merging declarations into an inline style

  /**
   * One declaration merged into an inline style: an existing value whose
   * priority is at least the declaration's stays, otherwise the declaration
   * is set.
   */
  function MergeOne(style: map<string, StyleValue>, d: Declaration): (r: map<string, StyleValue>)
    ensures d.name in r
    ensures forall n :: n != d.name ==> (n in r <==> n in style) && (n in style ==> r[n] == style[n])
    ensures d.name in style && style[d.name].priority.AtLeast(d.priority) ==> r == style
    ensures d.name in style ==> r[d.name].priority.AtLeast(style[d.name].priority)
    ensures d.name !in style || d.priority.Rank() > style[d.name].priority.Rank() ==>
              r[d.name] == StyleValue(d.value, d.priority)
  {
    if d.name in style && style[d.name].priority.AtLeast(d.priority) then style
    else style[d.name := StyleValue(d.value, d.priority)]
  }

  /** The walk over a rule's declarations, in order. */
  function Merge(style: map<string, StyleValue>, decls: seq<Declaration>): map<string, StyleValue>
  {
    if decls == [] then style else MergeOne(Merge(style, decls[..|decls| - 1]), decls[|decls| - 1])
  }

  /** The first declaration of `name` with priority `p`. */
  function FirstOf(decls: seq<Declaration>, name: string, p: Priority): (r: Option<Declaration>)
    ensures r.Some? ==> r.value in decls && r.value.name == name && r.value.priority == p
    ensures r.None? ==> forall d :: d in decls ==> d.name != name || d.priority != p
  {
    if decls == [] then None
    else if decls[0].name == name && decls[0].priority == p then Some(decls[0])
    else FirstOf(decls[1..], name, p)
  }

  /**
   * The value the cascade gives `name`, stated without the walk: an
   * important inline value; else the first important declaration; else a
   * normal inline value; else the first normal declaration.
   */
  function Winner(style: map<string, StyleValue>, decls: seq<Declaration>, name: string): Option<StyleValue>
  {
    var important := FirstOf(decls, name, Important);
    var normal := FirstOf(decls, name, Normal);
    if name in style && style[name].priority == Important then Some(style[name])
    else if important.Some? then Some(StyleValue(important.value.value, Important))
    else if name in style then Some(style[name])
    else if normal.Some? then Some(StyleValue(normal.value.value, Normal))
    else None
  }

  lemma {:induction false} FirstOfSnoc(decls: seq<Declaration>, d: Declaration, name: string, p: Priority)
    ensures FirstOf(decls + [d], name, p) ==
              if FirstOf(decls, name, p).Some? then FirstOf(decls, name, p)
              else if d.name == name && d.priority == p then Some(d) else None
  {
    if decls != [] {
      assert (decls + [d])[1..] == decls[1..] + [d];
      FirstOfSnoc(decls[1..], d, name, p);
    }
  }

  /** The walk computes the cascade: every property ends with the value `Winner` names. */
  lemma {:induction false} MergeIsWinner(style: map<string, StyleValue>, decls: seq<Declaration>, name: string)
    ensures name in Merge(style, decls) <==> Winner(style, decls, name).Some?
    ensures name in Merge(style, decls) ==> Merge(style, decls)[name] == Winner(style, decls, name).value
  {
    if decls != [] {
      var front := decls[..|decls| - 1];
      var d := decls[|decls| - 1];
      assert decls == front + [d];
      MergeIsWinner(style, front, name);
      FirstOfSnoc(front, d, name, Important);
      FirstOfSnoc(front, d, name, Normal);
    }
  }

  /** What the walk leaves: each declared property present, at a priority at least the declaration's. */
  predicate Covers(style: map<string, StyleValue>, decls: seq<Declaration>)
  {
    forall d :: d in decls ==> d.name in style && style[d.name].priority.AtLeast(d.priority)
  }

  /** Merging never lowers a priority and never drops a property. */
  lemma {:induction false} MergeRaises(style: map<string, StyleValue>, decls: seq<Declaration>)
    ensures forall n :: n in style ==> n in Merge(style, decls) && Merge(style, decls)[n].priority.AtLeast(style[n].priority)
  {
    if decls != [] {
      MergeRaises(style, decls[..|decls| - 1]);
    }
  }

  lemma {:induction false} MergeCovers(style: map<string, StyleValue>, decls: seq<Declaration>)
    ensures Covers(Merge(style, decls), decls)
  {
    if decls != [] {
      var front := decls[..|decls| - 1];
      var d := decls[|decls| - 1];
      MergeCovers(style, front);
      var m := Merge(style, front);
      forall e | e in decls
        ensures e.name in MergeOne(m, d) && MergeOne(m, d)[e.name].priority.AtLeast(e.priority)
      {
        if e != d {
          assert e in front;
        }
      }
    }
  }

  /** A style that already covers the declarations is left as it is. */
  lemma {:induction false} MergeCovered(style: map<string, StyleValue>, decls: seq<Declaration>)
    requires Covers(style, decls)
    ensures Merge(style, decls) == style
  {
    if decls != [] {
      var front := decls[..|decls| - 1];
      assert forall d :: d in front ==> d in decls;
      MergeCovered(style, front);
    }
  }

  /** Merging a rule into an element twice is merging it once. */
  lemma MergeIdempotent(style: map<string, StyleValue>, decls: seq<Declaration>)
    ensures Merge(Merge(style, decls), decls) == Merge(style, decls)
  {
    MergeCovers(style, decls);
    MergeCovered(Merge(style, decls), decls);
  }

  /** Properties the rule does not declare are untouched. */
  lemma {:induction false} MergeUntouched(style: map<string, StyleValue>, decls: seq<Declaration>, name: string)
    requires forall d :: d in decls ==> d.name != name
    ensures name in Merge(style, decls) <==> name in style
    ensures name in style ==> Merge(style, decls)[name] == style[name]
  {
    if decls != [] {
      MergeUntouched(style, decls[..|decls| - 1], name);
    }
  }

  /** Inline `color: red` against `color: blue !important` gives blue; inline `red !important` against `blue` stays red. */
  lemma PrecedenceExamples()
    ensures Merge(map["color" := StyleValue("red", Normal)], [Declaration("color", "blue", Important)])["color"]
              == StyleValue("blue", Important)
    ensures Merge(map["color" := StyleValue("red", Important)], [Declaration("color", "blue", Normal)])["color"]
              == StyleValue("red", Important)
  {
    var ds1 := [Declaration("color", "blue", Important)];
    var ds2 := [Declaration("color", "blue", Normal)];
    assert ds1[..0] == [] && ds2[..0] == [];
  }

  /** Two rules merged one after the other are one walk over both. */
  lemma {:induction false} MergeAppend(style: map<string, StyleValue>, a: seq<Declaration>, b: seq<Declaration>)
    ensures Merge(Merge(style, a), b) == Merge(style, a + b)
  {
    if b != [] {
      var front := b[..|b| - 1];
      assert (a + b)[..|a + b| - 1] == a + front;
      MergeAppend(style, a, front);
    } else {
      assert a + b == a;
    }
  }

  // ---------------------------------------------------------------------------
  // Selector lists and the structural cleanup

  /** A selector list without the item `key`: `prelude.children.remove(item)`. */
  function DropKey(prelude: seq<SelectorItem>, key: nat): (r: seq<SelectorItem>)
    ensures forall it :: it in r <==> it in prelude && it.key != key
    ensures |r| <= |prelude|
  {
    if prelude == [] then []
    else if prelude[0].key == key then DropKey(prelude[1..], key)
    else [prelude[0]] + DropKey(prelude[1..], key)
  }

  /** The selector `key` deleted from whichever rule of the sheet lists it. */
  function RemoveKey(nodes: seq<CssNode>, key: nat): (r: seq<CssNode>)
    decreases nodes
  {
    if nodes == [] then [] else [RemoveKeyIn(nodes[0], key)] + RemoveKey(nodes[1..], key)
  }

  function RemoveKeyIn(node: CssNode, key: nat): CssNode
    decreases node
  {
    match node
    case Rule(prelude, decls) => Rule(DropKey(prelude, key), decls)
    case Atrule(name, true, block) => Atrule(name, true, RemoveKey(block, key))
    case _ => node
  }

  /** The keys of all selectors of a sheet, at every depth. */
  function KeysOf(nodes: seq<CssNode>): set<nat>
    decreases nodes
  {
    if nodes == [] then {} else KeysIn(nodes[0]) + KeysOf(nodes[1..])
  }

  function KeysIn(node: CssNode): set<nat>
    decreases node
  {
    match node
    case Rule(prelude, _) => set it | it in prelude :: it.key
    case Atrule(_, true, block) => KeysOf(block)
    case _ => {}
  }

  /** Deleting a selector takes exactly its key out of the sheet. */
  lemma {:induction false} RemoveKeyKeys(nodes: seq<CssNode>, key: nat)
    ensures KeysOf(RemoveKey(nodes, key)) == KeysOf(nodes) - {key}
    decreases nodes
  {
    if nodes != [] {
      RemoveKeyInKeys(nodes[0], key);
      RemoveKeyKeys(nodes[1..], key);
    }
  }

  lemma {:induction false} RemoveKeyInKeys(node: CssNode, key: nat)
    ensures KeysIn(RemoveKeyIn(node, key)) == KeysIn(node) - {key}
    decreases node
  {
    match node
    case Rule(prelude, _) =>
    case Atrule(_, true, block) => RemoveKeyKeys(block, key);
    case _ =>
  }

  /**
   * The structural cleanup, bottom-up: rules left with no selector and
   * at-rules whose block is left with no node are deleted.
   */
  function Clean(nodes: seq<CssNode>): (r: seq<CssNode>)
    decreases nodes
  {
    if nodes == [] then []
    else
      var rest := Clean(nodes[1..]);
      match nodes[0]
      case Rule(prelude, decls) => if prelude == [] then rest else [nodes[0]] + rest
      case Atrule(name, true, block) =>
        var inner := Clean(block);
        if inner == [] then rest else [Atrule(name, true, inner)] + rest
      case _ => [nodes[0]] + rest
  }

  /**
   * The cleanup as written: the walk visits `Rule` nodes only, so the
   * at-rule branch never runs and an at-rule left empty stays.
   */
  function CleanAsWritten(nodes: seq<CssNode>): (r: seq<CssNode>)
    decreases nodes
  {
    if nodes == [] then []
    else
      var rest := CleanAsWritten(nodes[1..]);
      match nodes[0]
      case Rule(prelude, decls) => if prelude == [] then rest else [nodes[0]] + rest
      case Atrule(name, true, block) => [Atrule(name, true, CleanAsWritten(block))] + rest
      case _ => [nodes[0]] + rest
  }

  /** No rule without selectors and no at-rule with an empty block, at any depth. */
  predicate Tidy(nodes: seq<CssNode>)
    decreases nodes
  {
    nodes != [] ==> TidyNode(nodes[0]) && Tidy(nodes[1..])
  }

  predicate TidyNode(node: CssNode)
    decreases node
  {
    match node
    case Rule(prelude, _) => prelude != []
    case Atrule(_, true, block) => block != [] && Tidy(block)
    case _ => true
  }

  /** The rules of a sheet in document order, at every depth. */
  function Rules(nodes: seq<CssNode>): seq<CssNode>
    decreases nodes
  {
    if nodes == [] then [] else RulesIn(nodes[0]) + Rules(nodes[1..])
  }

  function RulesIn(node: CssNode): seq<CssNode>
    decreases node
  {
    match node
    case Rule(_, _) => [node]
    case Atrule(_, true, block) => Rules(block)
    case _ => []
  }

  /** The rules that still have a selector. */
  function WithSelectors(rules: seq<CssNode>): (r: seq<CssNode>)
    ensures |r| <= |rules|
  {
    if rules == [] then []
    else if rules[0].Rule? && rules[0].prelude == [] then WithSelectors(rules[1..])
    else [rules[0]] + WithSelectors(rules[1..])
  }

  lemma {:induction false} WithSelectorsAppend(a: seq<CssNode>, b: seq<CssNode>)
    ensures WithSelectors(a + b) == WithSelectors(a) + WithSelectors(b)
  {
    if a != [] {
      assert (a + b)[1..] == a[1..] + b;
      WithSelectorsAppend(a[1..], b);
    } else {
      assert a + b == b;
    }
  }

  /** Every node the cleanup leaves is tidy. */
  lemma {:induction false} CleanTidy(nodes: seq<CssNode>)
    ensures Tidy(Clean(nodes))
    decreases nodes
  {
    if nodes != [] {
      CleanTidy(nodes[1..]);
      match nodes[0]
      case Atrule(name, true, block) => CleanTidy(block);
      case _ =>
    }
  }

  /** The cleanup deletes exactly the rules without selectors and keeps the others in order. */
  lemma {:induction false} CleanRules(nodes: seq<CssNode>)
    ensures Rules(Clean(nodes)) == WithSelectors(Rules(nodes))
    decreases nodes
  {
    if nodes != [] {
      CleanRules(nodes[1..]);
      var rest := Clean(nodes[1..]);
      WithSelectorsAppend(RulesIn(nodes[0]), Rules(nodes[1..]));
      match nodes[0]
      case Rule(prelude, decls) =>
        if prelude != [] {
          assert Rules([nodes[0]] + rest) == [nodes[0]] + Rules(rest) by {
            assert ([nodes[0]] + rest)[1..] == rest;
          }
        }
      case Atrule(name, true, block) =>
        CleanRules(block);
        var inner := Clean(block);
        if inner != [] {
          assert ([Atrule(name, true, inner)] + rest)[1..] == rest;
        } else {
          assert Rules(inner) == [];
        }
      case Atrule(name, false, _) =>
        assert ([nodes[0]] + rest)[1..] == rest;
      case Other(_) =>
        assert ([nodes[0]] + rest)[1..] == rest;
    }
  }

  /** The cleanup as written also deletes exactly the rules without selectors, at every depth. */
  lemma {:induction false} CleanAsWrittenRules(nodes: seq<CssNode>)
    ensures Rules(CleanAsWritten(nodes)) == WithSelectors(Rules(nodes))
    decreases nodes
  {
    if nodes != [] {
      CleanAsWrittenRules(nodes[1..]);
      var rest := CleanAsWritten(nodes[1..]);
      WithSelectorsAppend(RulesIn(nodes[0]), Rules(nodes[1..]));
      match nodes[0]
      case Rule(prelude, decls) =>
        if prelude != [] {
          assert ([nodes[0]] + rest)[1..] == rest;
        }
      case Atrule(name, true, block) =>
        CleanAsWrittenRules(block);
        assert ([Atrule(name, true, CleanAsWritten(block))] + rest)[1..] == rest;
      case Atrule(name, false, _) =>
        assert ([nodes[0]] + rest)[1..] == rest;
      case Other(_) =>
        assert ([nodes[0]] + rest)[1..] == rest;
    }
  }

  /** A tidy sheet is left as it is, so the cleanup is idempotent. */
  lemma {:induction false} CleanTidyUnchanged(nodes: seq<CssNode>)
    requires Tidy(nodes)
    ensures Clean(nodes) == nodes
    decreases nodes
  {
    if nodes != [] {
      CleanTidyUnchanged(nodes[1..]);
      match nodes[0]
      case Atrule(name, true, block) => CleanTidyUnchanged(block);
      case _ =>
    }
  }

  lemma CleanIdempotent(nodes: seq<CssNode>)
    ensures Clean(Clean(nodes)) == Clean(nodes)
  {
    CleanTidy(nodes);
    CleanTidyUnchanged(Clean(nodes));
  }

  /**
   * A `@media` block whose one rule lost its one selector: the cleanup as
   * written keeps the empty block, so the sheet is not empty and its
   * `<style>` stays; the bottom-up cleanup empties the sheet.
   */
  lemma EmptyAtruleKept(decls: seq<Declaration>)
    ensures CleanAsWritten([Atrule("media", true, [Rule([], decls)])]) == [Atrule("media", true, [])]
    ensures Clean([Atrule("media", true, [Rule([], decls)])]) == []
  {
    var sheet := [Atrule("media", true, [Rule([], decls)])];
    assert sheet[1..] == [];
    assert [Rule([], decls)][1..] == [];
  }

  // ---------------------------------------------------------------------------
  // Collecting the sheets and their selectors

  /**
   * A `<style>` element as the collection loop sees it: whether
   * `closestElem('foreignObject')` finds an ancestor, and what `csstree.parse`
   * makes of its text (None when it throws).
   */
  datatype StyleSource = StyleSource(el: Element, inForeignObject: bool, parsed: Option<seq<CssNode>>)

  /** An entry of `styles`: the `<style>` element and its stylesheet. */
  datatype Sheet = Sheet(el: Element, ast: seq<CssNode>)

  /** The element is neither empty nor inside a `foreignObject`, and its text parsed. */
  predicate Usable(source: StyleSource)
    reads source.el
  {
    !source.el.IsEmpty() && !source.inForeignObject && source.parsed.Some?
  }

  /** The sheets the collection loop pushes, in order. */
  function Collected(sources: seq<StyleSource>): (r: seq<Sheet>)
    reads set s | s in sources :: s.el
    ensures |r| <= |sources|
  {
    if sources == [] then []
    else
      var last := sources[|sources| - 1];
      Collected(sources[..|sources| - 1]) + (if Usable(last) then [Sheet(last.el, last.parsed.value)] else [])
  }

  /** Every collected sheet is the sheet of a usable source. */
  lemma {:induction false} CollectedSource(sources: seq<StyleSource>, k: nat) returns (j: nat)
    requires k < |Collected(sources)|
    ensures j < |sources| && Usable(sources[j]) && Collected(sources)[k] == Sheet(sources[j].el, sources[j].parsed.value)
  {
    var front := sources[..|sources| - 1];
    if k < |Collected(front)| {
      j := CollectedSource(front, k);
      assert front[j] == sources[j];
    } else {
      j := |sources| - 1;
    }
  }

  /** Every usable source's sheet is collected. */
  lemma {:induction false} CollectedAll(sources: seq<StyleSource>, j: nat)
    requires j < |sources| && Usable(sources[j])
    ensures Sheet(sources[j].el, sources[j].parsed.value) in Collected(sources)
  {
    var front := sources[..|sources| - 1];
    if j < |front| {
      assert front[j] == sources[j];
      CollectedAll(front, j);
    }
  }

  /** What `flattenToSelectors` records for one selector of one rule: its sheet, its list item and the rule's declarations. */
  datatype SelectorRec = SelectorRec(sheet: nat, item: SelectorItem, decls: seq<Declaration>)

  /** One record per selector of every rule, in document order. */
  function FlattenRules(sheet: nat, rules: seq<CssNode>): (r: seq<SelectorRec>)
    ensures forall x :: x in r ==> x.sheet == sheet
    ensures forall x :: x in r ==> exists rule :: rule in rules && rule.Rule? && x.item in rule.prelude && x.decls == rule.decls
  {
    if rules == [] then []
    else
      var rest := FlattenRules(sheet, rules[1..]);
      assert forall rule :: rule in rules[1..] ==> rule in rules;
      match rules[0]
      case Rule(prelude, decls) => seq(|prelude|, k requires 0 <= k < |prelude| => SelectorRec(sheet, prelude[k], decls)) + rest
      case _ => rest
  }

  function Flatten(sheet: nat, ast: seq<CssNode>): seq<SelectorRec>
  {
    FlattenRules(sheet, Rules(ast))
  }

  /** `selectors`: the records of all sheets, sheet by sheet. */
  function FlattenAll(sheets: seq<Sheet>): seq<SelectorRec>
  {
    if sheets == [] then []
    else FlattenAll(sheets[..|sheets| - 1]) + Flatten(|sheets| - 1, sheets[|sheets| - 1].ast)
  }

  /** A rule found at any depth has its selectors' keys among the sheet's keys. */
  lemma {:induction false} RulesKeys(nodes: seq<CssNode>, rule: CssNode, it: SelectorItem)
    requires rule in Rules(nodes) && rule.Rule? && it in rule.prelude
    ensures it.key in KeysOf(nodes)
    decreases nodes
  {
    if rule in RulesIn(nodes[0]) {
      match nodes[0]
      case Atrule(_, true, block) => RulesKeys(block, rule, it);
      case _ =>
    } else {
      RulesKeys(nodes[1..], rule, it);
    }
  }

  /** Every record names a sheet and a selector that sheet has. */
  lemma {:induction false} FlattenAllNamesSelectors(sheets: seq<Sheet>)
    ensures forall x :: x in FlattenAll(sheets) ==> x.sheet < |sheets| && x.item.key in KeysOf(sheets[x.sheet].ast)
  {
    if sheets != [] {
      var front := sheets[..|sheets| - 1];
      FlattenAllNamesSelectors(front);
      forall x | x in FlattenAll(sheets)
        ensures x.sheet < |sheets| && x.item.key in KeysOf(sheets[x.sheet].ast)
      {
        if x in FlattenAll(front) {
          assert sheets[x.sheet] == front[x.sheet];
        } else {
          var ast := sheets[|sheets| - 1].ast;
          var rule :| rule in Rules(ast) && rule.Rule? && x.item in rule.prelude && x.decls == rule.decls;
          RulesKeys(ast, rule, x.item);
        }
      }
    }
  }

  /** `.reverse()`. */
  function Reverse<T>(s: seq<T>): (r: seq<T>)
    ensures |r| == |s|
    ensures forall k :: 0 <= k < |s| ==> r[k] == s[|s| - 1 - k]
  {
    if s == [] then [] else Reverse(s[1..]) + [s[0]]
  }

  // ---------------------------------------------------------------------------
  // Matching

  /** What `querySelectorAll` does with a selector: the elements, null, or an exception with its message. */
  datatype Query = Found(els: seq<Element>) | NoneFound | Thrown(message: string)

  const UnmatchedMessage: string := "Unmatched selector:"

  /** `part` occurs in `message` at `i`. */
  predicate PartAt(message: string, part: string, i: nat) {
    i + |part| <= |message| && message[i..i + |part|] == part
  }

  /** `message.includes(part)`. */
  predicate Includes(message: string, part: string) {
    exists i: nat | i <= |message| :: PartAt(message, part, i)
  }

  /**
   * `selector.selectedEls` for one record: the elements, or None when
   * nothing was selected or the selector does not parse; any other exception
   * ends the pass.
   */
  function Selected(q: Query): (r: Result<Option<seq<Element>>, string>)
    ensures r.Failure? <==> q.Thrown? && !Includes(q.message, UnmatchedMessage)
    ensures r.Success? && r.value.Some? <==> q.Found?
    ensures q.Found? ==> r == Success(Some(q.els))
  {
    match q
    case Found(els) => Success(Some(els))
    case NoneFound => Success(None)
    case Thrown(message) => if Includes(message, UnmatchedMessage) then Success(None) else Failure(message)
  }

  /** The matching loop: the selected elements of every record, or the first exception that is not skipped. */
  function MatchAll(recs: seq<SelectorRec>, query: string -> Query): (r: Result<seq<Option<seq<Element>>>, string>)
    ensures r.Success? ==>
              && |r.value| == |recs|
              && forall k :: 0 <= k < |recs| ==> Selected(query(recs[k].item.text)) == Success(r.value[k])
    ensures r.Failure? ==>
              exists k :: && 0 <= k < |recs|
                          && Selected(query(recs[k].item.text)) == Failure(r.error)
                          && forall j :: 0 <= j < k ==> Selected(query(recs[j].item.text)).Success?
  {
    if recs == [] then Success([])
    else
      var front := recs[..|recs| - 1];
      assert forall j :: 0 <= j < |front| ==> front[j] == recs[j];
      match MatchAll(front, query)
      case Failure(e) => Failure(e)
      case Success(ms) =>
        match Selected(query(recs[|recs| - 1].item.text))
        case Failure(e) => Failure(e)
        case Success(m) => Success(ms + [m])
  }

  // ---------------------------------------------------------------------------
  // What the pass does to each element

  /** A record whose declarations are applied: it selected something, and once only when `onlyMatchedOnce` asks. */
  predicate Eligible(ms: seq<Option<seq<Element>>>, k: nat, onlyMatchedOnce: bool)
    requires k < |ms|
  {
    ms[k].Some? && !(onlyMatchedOnce && |ms[k].value| > 1)
  }

  /** The inline style of `e` after the records before `n` are applied. */
  function Cascade(style: map<string, StyleValue>, e: Element, recs: seq<SelectorRec>,
                   ms: seq<Option<seq<Element>>>, onlyMatchedOnce: bool, n: nat): map<string, StyleValue>
    requires n <= |recs| == |ms|
  {
    if n == 0 then style
    else
      var before := Cascade(style, e, recs, ms, onlyMatchedOnce, n - 1);
      if Eligible(ms, n - 1, onlyMatchedOnce) && e in ms[n - 1].value then Merge(before, recs[n - 1].decls) else before
  }

  /** The declarations applied to `e`, record after record. */
  function AppliedDecls(e: Element, recs: seq<SelectorRec>, ms: seq<Option<seq<Element>>>,
                        onlyMatchedOnce: bool, n: nat): seq<Declaration>
    requires n <= |recs| == |ms|
  {
    if n == 0 then []
    else
      var before := AppliedDecls(e, recs, ms, onlyMatchedOnce, n - 1);
      if Eligible(ms, n - 1, onlyMatchedOnce) && e in ms[n - 1].value then before + recs[n - 1].decls else before
  }

  /**
   * The records form one cascade: the style of `e` is its inline style
   * merged with the declarations of its eligible records, earlier records
   * (higher specificity) first, so each property ends as `Winner` says.
   */
  lemma {:induction false} CascadeIsMerge(style: map<string, StyleValue>, e: Element, recs: seq<SelectorRec>,
                                          ms: seq<Option<seq<Element>>>, onlyMatchedOnce: bool, n: nat)
    requires n <= |recs| == |ms|
    ensures Cascade(style, e, recs, ms, onlyMatchedOnce, n) == Merge(style, AppliedDecls(e, recs, ms, onlyMatchedOnce, n))
  {
    if n > 0 {
      CascadeIsMerge(style, e, recs, ms, onlyMatchedOnce, n - 1);
      if Eligible(ms, n - 1, onlyMatchedOnce) && e in ms[n - 1].value {
        MergeAppend(style, AppliedDecls(e, recs, ms, onlyMatchedOnce, n - 1), recs[n - 1].decls);
      }
    }
  }

  /** With `onlyMatchedOnce`, a record that selected several elements changes no style. */
  lemma {:induction false} CascadeSkipsShared(style: map<string, StyleValue>, e: Element, recs: seq<SelectorRec>,
                                              ms: seq<Option<seq<Element>>>, n: nat)
    requires n <= |recs| == |ms|
    ensures Cascade(style, e, recs, ms, true, n) == Cascade(style, e, recs, OnlyOnce(ms), false, n)
  {
    if n > 0 {
      CascadeSkipsShared(style, e, recs, ms, n - 1);
    }
  }

  /** The matches with every record that selected several elements dropped. */
  function OnlyOnce(ms: seq<Option<seq<Element>>>): (r: seq<Option<seq<Element>>>)
    ensures |r| == |ms|
    ensures forall k :: 0 <= k < |ms| ==> r[k] == if ms[k].Some? && |ms[k].value| > 1 then None else ms[k]
  {
    seq(|ms|, k requires 0 <= k < |ms| => if ms[k].Some? && |ms[k].value| > 1 then None else ms[k])
  }

  /** The class list and attributes of an element: what the class and id cleanup changes. */
  datatype Marks = Marks(classes: seq<string>, attrs: map<string, Attribute>)

  /**
   * The cleanup of one matched element for one selector: a leading class is
   * taken off the class list, an empty class list loses its attribute, and a
   * leading id is removed when the element's id is that name.
   */
  function CleanMarks(m: Marks, first: First): (r: Marks)
    ensures r.classes == if first.ClassSelector? then Without(m.classes, first.name) else m.classes
    ensures r.classes == [] ==> "class" !in r.attrs
    ensures r.classes != [] && "class" in m.attrs ==>
              "class" in r.attrs && r.attrs["class"] == (if first.ClassSelector? then m.attrs["class"].(value := JoinClasses(r.classes)) else m.attrs["class"])
    ensures "class" !in m.attrs ==> "class" !in r.attrs
    ensures first.IdSelector? ==> ("id" in r.attrs <==> "id" in m.attrs && m.attrs["id"].value != first.name)
    ensures !first.IdSelector? ==> ("id" in r.attrs <==> "id" in m.attrs)
    ensures forall a :: a in r.attrs && a != "class" ==> a in m.attrs && r.attrs[a] == m.attrs[a]
    ensures forall a :: a in m.attrs && a != "class" && a != "id" ==> a in r.attrs
  {
    var classes := if first.ClassSelector? then Without(m.classes, first.name) else m.classes;
    var attrs1 := if first.ClassSelector? && "class" in m.attrs
                  then m.attrs["class" := m.attrs["class"].(value := JoinClasses(classes))] else m.attrs;
    var attrs2 := if classes == [] then attrs1 - {"class"} else attrs1;
    var attrs3 := if first.IdSelector? && "id" in attrs2 && attrs2["id"].value == first.name then attrs2 - {"id"} else attrs2;
    Marks(classes, attrs3)
  }

  lemma {:induction false} WithoutTwice(s: seq<string>, x: string)
    ensures Without(Without(s, x), x) == Without(s, x)
  {
    if s != [] {
      WithoutTwice(s[1..], x);
      if s[0] != x {
        assert ([s[0]] + Without(s[1..], x))[1..] == Without(s[1..], x);
      }
    }
  }

  /** Cleaning an element twice for the same selector is cleaning it once. */
  lemma CleanMarksIdempotent(m: Marks, first: First)
    ensures CleanMarks(CleanMarks(m, first), first) == CleanMarks(m, first)
  {
    if first.ClassSelector? {
      WithoutTwice(m.classes, first.name);
    }
    var once := CleanMarks(m, first);
    var twice := CleanMarks(once, first);
    assert twice.attrs.Keys == once.attrs.Keys;
  }

  /** `.a` on `class="a b"` leaves `class="b"`; on `class="a"` it removes the attribute. */
  lemma ClassCleanupExamples(c: Attribute)
    requires c.name == "class"
    ensures CleanMarks(Marks(["a", "b"], map["class" := c.(value := "a b")]), ClassSelector("a"))
              == Marks(["b"], map["class" := c.(value := "b")])
    ensures CleanMarks(Marks(["a"], map["class" := c.(value := "a")]), ClassSelector("a")) == Marks([], map[])
  {
    assert Without(["a", "b"], "a") == ["b"] by {
      assert ["a", "b"][1..] == ["b"];
      assert ["b"][1..] == [];
    }
    assert Without(["a"], "a") == [] by { assert ["a"][1..] == []; }
    assert JoinClasses(["b"]) == "b";
    assert map["class" := c.(value := "a")] - {"class"} == map[];
  }

  /** The class list and attributes of `e` after the records before `n` are cleaned. */
  function Cleaned(m: Marks, e: Element, recs: seq<SelectorRec>, ms: seq<Option<seq<Element>>>,
                   onlyMatchedOnce: bool, n: nat): Marks
    requires n <= |recs| == |ms|
  {
    if n == 0 then m
    else
      var before := Cleaned(m, e, recs, ms, onlyMatchedOnce, n - 1);
      if Eligible(ms, n - 1, onlyMatchedOnce) && e in ms[n - 1].value then CleanMarks(before, recs[n - 1].item.first) else before
  }

  /** An element no eligible record selected keeps its class list and attributes. */
  lemma {:induction false} CleanedUnselected(m: Marks, e: Element, recs: seq<SelectorRec>, ms: seq<Option<seq<Element>>>,
                                             onlyMatchedOnce: bool, n: nat)
    requires n <= |recs| == |ms|
    requires forall k :: 0 <= k < n && Eligible(ms, k, onlyMatchedOnce) ==> e !in ms[k].value
    ensures Cleaned(m, e, recs, ms, onlyMatchedOnce, n) == m
  {
    if n > 0 {
      CleanedUnselected(m, e, recs, ms, onlyMatchedOnce, n - 1);
    }
  }

  // ---------------------------------------------------------------------------
  // What the pass does to the sheets

  /** A record's selector deleted from its sheet. */
  function RemoveFrom(sheets: seq<Sheet>, rec: SelectorRec): (r: seq<Sheet>)
    ensures |r| == |sheets|
    ensures forall i :: 0 <= i < |sheets| ==> r[i].el == sheets[i].el
    ensures forall i :: 0 <= i < |sheets| ==>
              r[i].ast == if i == rec.sheet then RemoveKey(sheets[i].ast, rec.item.key) else sheets[i].ast
  {
    if rec.sheet < |sheets| then sheets[rec.sheet := sheets[rec.sheet].(ast := RemoveKey(sheets[rec.sheet].ast, rec.item.key))]
    else sheets
  }

  /** A record whose selector is deleted: it is eligible, selected at least one element, and `removeMatchedSelectors` is on. */
  predicate Removes(ms: seq<Option<seq<Element>>>, k: nat, onlyMatchedOnce: bool, removeMatchedSelectors: bool)
    requires k < |ms|
  {
    removeMatchedSelectors && Eligible(ms, k, onlyMatchedOnce) && |ms[k].value| > 0
  }

  /** The sheets after the records before `n` are applied. */
  function Removed(sheets: seq<Sheet>, recs: seq<SelectorRec>, ms: seq<Option<seq<Element>>>,
                   onlyMatchedOnce: bool, removeMatchedSelectors: bool, n: nat): (r: seq<Sheet>)
    requires n <= |recs| == |ms|
    ensures |r| == |sheets|
    ensures forall i :: 0 <= i < |sheets| ==> r[i].el == sheets[i].el
  {
    if n == 0 then sheets
    else
      var before := Removed(sheets, recs, ms, onlyMatchedOnce, removeMatchedSelectors, n - 1);
      if Removes(ms, n - 1, onlyMatchedOnce, removeMatchedSelectors) then RemoveFrom(before, recs[n - 1]) else before
  }

  /**
   * The selectors left in each sheet: its own minus those of the records
   * that removed one from it.
   */
  lemma {:induction false} RemovedKeys(sheets: seq<Sheet>, recs: seq<SelectorRec>, ms: seq<Option<seq<Element>>>,
                                       onlyMatchedOnce: bool, removeMatchedSelectors: bool, n: nat, i: nat)
    requires n <= |recs| == |ms| && i < |sheets|
    ensures KeysOf(Removed(sheets, recs, ms, onlyMatchedOnce, removeMatchedSelectors, n)[i].ast) ==
              KeysOf(sheets[i].ast) -
              (set k | 0 <= k < n && Removes(ms, k, onlyMatchedOnce, removeMatchedSelectors) && recs[k].sheet == i :: recs[k].item.key)
  {
    if n > 0 {
      RemovedKeys(sheets, recs, ms, onlyMatchedOnce, removeMatchedSelectors, n - 1, i);
      var before := Removed(sheets, recs, ms, onlyMatchedOnce, removeMatchedSelectors, n - 1);
      if Removes(ms, n - 1, onlyMatchedOnce, removeMatchedSelectors) && recs[n - 1].sheet == i {
        RemoveKeyKeys(before[i].ast, recs[n - 1].item.key);
      }
    }
  }

  /** With `removeMatchedSelectors` off no selector is deleted. */
  lemma {:induction false} RemovedNothing(sheets: seq<Sheet>, recs: seq<SelectorRec>, ms: seq<Option<seq<Element>>>,
                                          onlyMatchedOnce: bool, n: nat)
    requires n <= |recs| == |ms|
    ensures Removed(sheets, recs, ms, onlyMatchedOnce, false, n) == sheets
  {
    if n > 0 {
      RemovedNothing(sheets, recs, ms, onlyMatchedOnce, n - 1);
    }
  }

  // ---------------------------------------------------------------------------
  // The loops of `fn`

  /** One more source extends the collected sheets by its own sheet, if it is usable. */
  lemma CollectedStep(sources: seq<StyleSource>, i: nat)
    requires i < |sources|
    ensures Collected(sources[..i + 1]) ==
              Collected(sources[..i]) + (if Usable(sources[i]) then [Sheet(sources[i].el, sources[i].parsed.value)] else [])
  {
    assert sources[..i + 1][..i] == sources[..i];
  }

  /** One more sheet appends its own records to the flattened records. */
  lemma FlattenAllStep(sheets: seq<Sheet>, sheet: Sheet)
    ensures FlattenAll(sheets + [sheet]) == FlattenAll(sheets) + Flatten(|sheets|, sheet.ast)
  {
    var all := sheets + [sheet];
    assert all[..|all| - 1] == sheets && all[|all| - 1] == sheet;
    assert FlattenAll(all) == FlattenAll(all[..|all| - 1]) + Flatten(|all| - 1, all[|all| - 1].ast);
  }

  /** The collection loop: the usable `<style>` elements with their sheets, and the records of their selectors. */
  method Collect(sources: seq<StyleSource>) returns (styles: seq<Sheet>, selectors: seq<SelectorRec>)
    ensures styles == Collected(sources)
    ensures selectors == FlattenAll(styles)
  {
    styles := [];
    selectors := [];
    for i := 0 to |sources|
      invariant styles == Collected(sources[..i])
      invariant selectors == FlattenAll(styles)
    {
      CollectedStep(sources, i);
      var source := sources[i];
      if source.el.IsEmpty() || source.inForeignObject {
        continue;
      }
      if source.parsed.None? {
        continue;
      }
      var sheet := Sheet(source.el, source.parsed.value);
      FlattenAllStep(styles, sheet);
      selectors := selectors + Flatten(|styles|, sheet.ast);
      styles := styles + [sheet];
    }
    assert sources[..|sources|] == sources;
  }

  /** A failure in a prefix of the records is the failure of the whole loop. */
  lemma {:induction false} MatchAllPrefixFails(recs: seq<SelectorRec>, query: string -> Query, i: nat)
    requires i <= |recs| && MatchAll(recs[..i], query).Failure?
    ensures MatchAll(recs, query) == MatchAll(recs[..i], query)
    decreases |recs| - i
  {
    if i < |recs| {
      var front := recs[..|recs| - 1];
      assert front[..i] == recs[..i];
      MatchAllPrefixFails(front, query, i);
    } else {
      assert recs[..i] == recs;
    }
  }

  /** The matching loop over the sorted records. */
  method Match(sorted: seq<SelectorRec>, query: string -> Query) returns (r: Result<seq<Option<seq<Element>>>, string>)
    ensures r == MatchAll(sorted, query)
  {
    var ms: seq<Option<seq<Element>>> := [];
    for i := 0 to |sorted|
      invariant MatchAll(sorted[..i], query) == Success(ms)
    {
      assert sorted[..i + 1][..i] == sorted[..i];
      var q := query(sorted[i].item.text);
      var selectedEls: Option<seq<Element>> := None;
      if q.Thrown? {
        if !Includes(q.message, UnmatchedMessage) {
          MatchAllPrefixFails(sorted, query, i + 1);
          return Failure(q.message);
        }
      } else if q.Found? {
        selectedEls := Some(q.els);
      }
      ms := ms + [selectedEls];
    }
    assert sorted[..|sorted|] == sorted;
    return Success(ms);
  }

  /** Every element some record selected. */
  function Touched(ms: seq<Option<seq<Element>>>): set<Element>
  {
    set k, e | 0 <= k < |ms| && ms[k].Some? && e in ms[k].value :: e
  }

  /** The `csstree.walk` over a rule's declarations for one matched element. */
  method MergeDecls(el: Element, decls: seq<Declaration>)
    modifies el
    ensures el.style == Merge(old(el.style), decls)
    ensures el.attrs == old(el.attrs) && el.classes == old(el.classes) && el.content == old(el.content)
    ensures el.parentNode == old(el.parentNode) && el.text == old(el.text)
  {
    for i := 0 to |decls|
      invariant el.style == Merge(old(el.style), decls[..i])
      invariant el.attrs == old(el.attrs) && el.classes == old(el.classes) && el.content == old(el.content)
      invariant el.parentNode == old(el.parentNode) && el.text == old(el.text)
    {
      assert decls[..i + 1][..i] == decls[..i];
      var d := decls[i];
      if d.name in el.style && el.style[d.name].priority.AtLeast(d.priority) {
        continue;
      }
      el.style := el.style[d.name := StyleValue(d.value, d.priority)];
    }
    assert decls[..|decls|] == decls;
  }

  /** The loop over `selector.selectedEls`: every matched element gets the rule's declarations. */
  method ApplyRecord(els: seq<Element>, decls: seq<Declaration>)
    modifies set e | e in els
    ensures forall e :: e in els ==> e.style == Merge(old(e.style), decls)
    ensures forall e :: e in els ==>
              && e.attrs == old(e.attrs) && e.classes == old(e.classes) && e.content == old(e.content)
              && e.parentNode == old(e.parentNode) && e.text == old(e.text)
  {
    for j := 0 to |els|
      invariant forall e :: e in els ==> e.style == if e in els[..j] then Merge(old(e.style), decls) else old(e.style)
      invariant forall e :: e in els ==>
                  && e.attrs == old(e.attrs) && e.classes == old(e.classes) && e.content == old(e.content)
                  && e.parentNode == old(e.parentNode) && e.text == old(e.text)
    {
      var el := els[j];
      assert forall e :: e in els[..j + 1] <==> e in els[..j] || e == el;
      if el in els[..j] {
        MergeIdempotent(old(el.style), decls);
      }
      MergeDecls(el, decls);
    }
    assert els[..|els|] == els;
  }

  /**
   * The merge loop over the sorted records: the declarations of each eligible
   * record go into the elements it selected, and with
   * `removeMatchedSelectors` its selector leaves its rule.
   */
  method Apply(recs: seq<SelectorRec>, ms: seq<Option<seq<Element>>>, onlyMatchedOnce: bool,
               removeMatchedSelectors: bool, sheets: seq<Sheet>) returns (out: seq<Sheet>)
    requires |recs| == |ms|
    modifies Touched(ms)
    ensures forall e :: e in Touched(ms) ==> e.style == Cascade(old(e.style), e, recs, ms, onlyMatchedOnce, |recs|)
    ensures forall e :: e in Touched(ms) ==>
              && e.attrs == old(e.attrs) && e.classes == old(e.classes) && e.content == old(e.content)
              && e.parentNode == old(e.parentNode) && e.text == old(e.text)
    ensures out == Removed(sheets, recs, ms, onlyMatchedOnce, removeMatchedSelectors, |recs|)
  {
    out := sheets;
    for k := 0 to |recs|
      invariant forall e :: e in Touched(ms) ==> e.style == Cascade(old(e.style), e, recs, ms, onlyMatchedOnce, k)
      invariant forall e :: e in Touched(ms) ==>
                  && e.attrs == old(e.attrs) && e.classes == old(e.classes) && e.content == old(e.content)
                  && e.parentNode == old(e.parentNode) && e.text == old(e.text)
      invariant out == Removed(sheets, recs, ms, onlyMatchedOnce, removeMatchedSelectors, k)
    {
      if ms[k].None? {
        continue;
      }
      var els := ms[k].value;
      if onlyMatchedOnce && |els| > 1 {
        continue;
      }
      assert forall e :: e in els ==> e in Touched(ms);
      ApplyRecord(els, recs[k].decls);
      if removeMatchedSelectors && |els| > 0 {
        out := RemoveFrom(out, recs[k]);
      }
    }
  }

  /** The class and id cleanup of one matched element for one selector. */
  method CleanElement(el: Element, first: First)
    modifies el
    ensures Marks(el.classes, el.attrs) == CleanMarks(old(Marks(el.classes, el.attrs)), first)
    ensures el.style == old(el.style) && el.content == old(el.content)
    ensures el.parentNode == old(el.parentNode) && el.text == old(el.text)
  {
    if first.ClassSelector? {
      el.RemoveClass(first.name);
    }
    if el.classes == [] {
      var _ := el.RemoveAttr(AttrNamed("class"));
    }
    if first.IdSelector? {
      var _ := el.RemoveAttr(AttrWithValue("id", first.name));
    }
  }

  /** The loop over `selector.selectedEls` in the cleanup. */
  method CleanRecord(els: seq<Element>, first: First)
    modifies set e | e in els
    ensures forall e :: e in els ==> Marks(e.classes, e.attrs) == CleanMarks(old(Marks(e.classes, e.attrs)), first)
    ensures forall e :: e in els ==>
              e.style == old(e.style) && e.content == old(e.content) && e.parentNode == old(e.parentNode) && e.text == old(e.text)
  {
    for j := 0 to |els|
      invariant forall e :: e in els ==>
                  Marks(e.classes, e.attrs) ==
                    if e in els[..j] then CleanMarks(old(Marks(e.classes, e.attrs)), first) else old(Marks(e.classes, e.attrs))
      invariant forall e :: e in els ==>
                  e.style == old(e.style) && e.content == old(e.content) && e.parentNode == old(e.parentNode) && e.text == old(e.text)
    {
      var el := els[j];
      assert forall e :: e in els[..j + 1] <==> e in els[..j] || e == el;
      if el in els[..j] {
        CleanMarksIdempotent(old(Marks(el.classes, el.attrs)), first);
      }
      CleanElement(el, first);
    }
    assert els[..|els|] == els;
  }

  /** The class and id cleanup loop over the sorted records. */
  method CleanClasses(recs: seq<SelectorRec>, ms: seq<Option<seq<Element>>>, onlyMatchedOnce: bool)
    requires |recs| == |ms|
    modifies Touched(ms)
    ensures forall e :: e in Touched(ms) ==>
              Marks(e.classes, e.attrs) == Cleaned(old(Marks(e.classes, e.attrs)), e, recs, ms, onlyMatchedOnce, |recs|)
    ensures forall e :: e in Touched(ms) ==>
              e.style == old(e.style) && e.content == old(e.content) && e.parentNode == old(e.parentNode) && e.text == old(e.text)
  {
    for k := 0 to |recs|
      invariant forall e :: e in Touched(ms) ==>
                  Marks(e.classes, e.attrs) == Cleaned(old(Marks(e.classes, e.attrs)), e, recs, ms, onlyMatchedOnce, k)
      invariant forall e :: e in Touched(ms) ==>
                  e.style == old(e.style) && e.content == old(e.content) && e.parentNode == old(e.parentNode) && e.text == old(e.text)
    {
      if ms[k].None? {
        continue;
      }
      var els := ms[k].value;
      if onlyMatchedOnce && |els| > 1 {
        continue;
      }
      assert Eligible(ms, k, onlyMatchedOnce);
      assert forall e :: e in els ==> e in Touched(ms);
      label pre:
      CleanRecord(els, recs[k].item.first);
      forall e | e in Touched(ms)
        ensures Marks(e.classes, e.attrs) == Cleaned(old(Marks(e.classes, e.attrs)), e, recs, ms, onlyMatchedOnce, k + 1)
      {
        if e !in els {
          assert Marks(e.classes, e.attrs) == old@pre(Marks(e.classes, e.attrs));
        }
      }
    }
  }

  /** The `<style>` element has a parent in `doc`, and so has that parent when it is a `<defs>`. */
  predicate Parented(el: Element, doc: set<Element>)
    reads el, el.parentNode
  {
    && el.parentNode != null && el.parentNode in doc
    && (el.parentNode.elem == "defs" ==> el.parentNode.parentNode != null && el.parentNode.parentNode in doc)
  }

  /** The element occurs at most once among its parent's children. */
  predicate Once(el: Element)
    reads el, el.parentNode
  {
    el.parentNode != null && multiset(el.parentNode.content)[el] <= 1
  }

  /** The element is no longer among its parent's children. */
  predicate Gone(el: Element)
    reads el, el.parentNode
  {
    el.parentNode != null && multiset(el.parentNode.content)[el] == 0
  }

  /** Taking `el` out of `content` empties the `<defs>` element `p`. */
  predicate EmptiesDefs(p: Element, content: seq<Element>, el: Element) {
    p.elem == "defs" && Detached(content, el) == []
  }

  /** Takes the first occurrence of `child` out of `p`'s children. */
  method Unlink(p: Element, child: Element, ghost doc: set<Element>,
                ghost kids: map<Element, seq<Element>>, ghost up: map<Element, Element?>)
    requires p in doc && Mirrored(doc, kids, up)
    modifies p
    ensures p.content == Detached(old(p.content), child)
    ensures p.attrs == old(p.attrs) && p.classes == old(p.classes) && p.style == old(p.style)
    ensures p.parentNode == old(p.parentNode) && p.text == old(p.text)
    ensures multiset(p.content) <= old(multiset(p.content))
    ensures old(multiset(p.content))[child] <= 1 ==> child !in p.content
    ensures forall x :: x in doc && x != p ==>
              && x.attrs == old(x.attrs) && x.classes == old(x.classes) && x.style == old(x.style)
              && x.parentNode == old(x.parentNode) && x.text == old(x.text) && x.content == old(x.content)
    ensures Mirrored(doc, kids[p := Detached(kids[p], child)], up)
  {
    DetachedSpec(p.content, child);
    p.RemoveChildAt(IndexOf(p.content, child));
  }

  /** The removal of a `<style>` element that leaves its `<defs>` parent empty: the parent goes too. */
  method DetachWithDefs(el: Element, p: Element, gp: Element, ghost doc: set<Element>,
                        ghost kids: map<Element, seq<Element>>, ghost up: map<Element, Element?>)
    requires p == el.parentNode && gp == p.parentNode && EmptiesDefs(p, p.content, el)
    requires el in doc && p in doc && gp in doc && Mirrored(doc, kids, up)
    modifies p, gp
    ensures el.parentNode == p && p.parentNode == gp
    ensures p.content == [] && Gone(el)
    ensures gp != p ==> gp.content == Detached(old(gp.content), p)
    ensures forall x :: x in doc && x != p && x != gp ==> x.content == old(x.content)
    ensures forall x :: x in doc ==>
              && x.attrs == old(x.attrs) && x.classes == old(x.classes) && x.style == old(x.style)
              && x.parentNode == old(x.parentNode) && x.text == old(x.text)
    ensures forall x :: x in doc ==> multiset(x.content) <= old(multiset(x.content))
    ensures Mirrored(doc, UnlinkStep(kids, up, el), up)
  {
    ghost var once := kids[p := Detached(kids[p], el)];
    Unlink(p, el, doc, kids, up);
    assert p.content == [];
    label unlinked:
    Unlink(gp, p, doc, once, up);
    if gp == p {
      assert gp.content == Detached([], p) == [];
    } else {
      assert old@unlinked(gp.content) == old(gp.content);
      assert gp.content == Detached(old(gp.content), p);
      assert p.content == [];
    }
    assert UnlinkStep(kids, up, el) == once[gp := Detached(once[gp], p)];
    forall x | x in doc
      ensures x.attrs == old(x.attrs) && x.classes == old(x.classes) && x.style == old(x.style)
      ensures x.parentNode == old(x.parentNode) && x.text == old(x.text)
      ensures multiset(x.content) <= old(multiset(x.content))
    {
      if x == p {
        assert multiset(x.content) == multiset{};
      }
    }
  }

  /**
   * The removal of an emptied `<style>` element: it leaves its parent, and a
   * `<defs>` parent left without children leaves the grandparent.
   */
  method Detach(el: Element, doc: set<Element>, ghost kids: map<Element, seq<Element>>, ghost up: map<Element, Element?>)
    requires el in doc && Parented(el, doc) && Mirrored(doc, kids, up)
    modifies doc
    ensures forall x :: x in doc ==>
              && x.attrs == old(x.attrs) && x.classes == old(x.classes) && x.style == old(x.style)
              && x.parentNode == old(x.parentNode) && x.text == old(x.text)
    ensures forall x :: x in doc ==> multiset(x.content) <= old(multiset(x.content))
    ensures old(Once(el)) ==> Gone(el)
    ensures !EmptiesDefs(el.parentNode, old(el.parentNode.content), el) ==>
              && el.parentNode.content == Detached(old(el.parentNode.content), el)
              && forall x :: x in doc && x != el.parentNode ==> x.content == old(x.content)
    ensures EmptiesDefs(el.parentNode, old(el.parentNode.content), el) ==>
              var p, gp := el.parentNode, el.parentNode.parentNode;
              && p.content == []
              && (gp != p ==> gp.content == Detached(old(gp.content), p))
              && forall x :: x in doc && x != p && x != gp ==> x.content == old(x.content)
    ensures Mirrored(doc, UnlinkStep(kids, up, el), up)
  {
    if EmptiesDefs(el.parentNode, el.parentNode.content, el) {
      DetachEmptyingDefs(el, doc, kids, up);
    } else {
      DetachFromParent(el, doc, kids, up);
    }
  }

  /** `Detach` when the parent keeps other children or is not a `<defs>`. */
  method DetachFromParent(el: Element, doc: set<Element>, ghost kids: map<Element, seq<Element>>, ghost up: map<Element, Element?>)
    requires el in doc && Parented(el, doc) && Mirrored(doc, kids, up) && !EmptiesDefs(el.parentNode, el.parentNode.content, el)
    modifies doc
    ensures forall x :: x in doc ==>
              && x.attrs == old(x.attrs) && x.classes == old(x.classes) && x.style == old(x.style)
              && x.parentNode == old(x.parentNode) && x.text == old(x.text)
    ensures forall x :: x in doc ==> multiset(x.content) <= old(multiset(x.content))
    ensures old(Once(el)) ==> Gone(el)
    ensures el.parentNode.content == Detached(old(el.parentNode.content), el)
    ensures forall x :: x in doc && x != el.parentNode ==> x.content == old(x.content)
    ensures Mirrored(doc, UnlinkStep(kids, up, el), up)
  {
    var p := el.parentNode;
    Unlink(p, el, doc, kids, up);
    assert el.parentNode == p;
    assert UnlinkStep(kids, up, el) == kids[p := Detached(kids[p], el)];
    forall x | x in doc
      ensures x.attrs == old(x.attrs) && x.classes == old(x.classes) && x.style == old(x.style)
      ensures x.parentNode == old(x.parentNode) && x.text == old(x.text)
      ensures multiset(x.content) <= old(multiset(x.content))
    {
    }
  }

  /** `Detach` when the parent is a `<defs>` that the removal empties. */
  method DetachEmptyingDefs(el: Element, doc: set<Element>, ghost kids: map<Element, seq<Element>>, ghost up: map<Element, Element?>)
    requires el in doc && Parented(el, doc) && Mirrored(doc, kids, up) && EmptiesDefs(el.parentNode, el.parentNode.content, el)
    modifies el.parentNode, el.parentNode.parentNode
    ensures forall x :: x in doc ==>
              && x.attrs == old(x.attrs) && x.classes == old(x.classes) && x.style == old(x.style)
              && x.parentNode == old(x.parentNode) && x.text == old(x.text)
    ensures forall x :: x in doc ==> multiset(x.content) <= old(multiset(x.content))
    ensures Gone(el)
    ensures var p, gp := el.parentNode, el.parentNode.parentNode;
            && p.content == []
            && (gp != p ==> gp.content == Detached(old(gp.content), p))
            && forall x :: x in doc && x != p && x != gp ==> x.content == old(x.content)
    ensures Mirrored(doc, UnlinkStep(kids, up, el), up)
  {
    var p, gp := el.parentNode, el.parentNode.parentNode;
    DetachWithDefs(el, p, gp, doc, kids, up);
    assert gp != p ==> gp.content == Detached(old(gp.content), p);
    assert el.parentNode == p && el.parentNode.parentNode == gp;
  }

  /**
   * The end of the pass for one sheet: a sheet with nothing left after the
   * cleanup takes its `<style>` element out of the tree; otherwise the cleaned
   * sheet is printed back into the element.
   */
  method CleanupSheet(sheet: Sheet, doc: set<Element>, generate: seq<CssNode> -> string,
                      ghost kids: map<Element, seq<Element>>, ghost up: map<Element, Element?>)
    requires sheet.el in doc && Parented(sheet.el, doc) && Mirrored(doc, kids, up)
    modifies doc
    ensures forall x :: x in doc ==>
              && x.attrs == old(x.attrs) && x.classes == old(x.classes) && x.style == old(x.style)
              && x.parentNode == old(x.parentNode)
    ensures forall x :: x in doc ==> multiset(x.content) <= old(multiset(x.content))
    ensures forall x :: x in doc && x != sheet.el ==> x.text == old(x.text)
    ensures CleanAsWritten(sheet.ast) != [] ==>
              && sheet.el.text == generate(CleanAsWritten(sheet.ast))
              && forall x :: x in doc ==> x.content == old(x.content)
    ensures CleanAsWritten(sheet.ast) == [] ==> sheet.el.text == old(sheet.el.text)
    ensures CleanAsWritten(sheet.ast) == [] && old(Once(sheet.el)) ==> Gone(sheet.el)
    ensures Mirrored(doc, if CleanAsWritten(sheet.ast) == [] then UnlinkStep(kids, up, sheet.el) else kids, up)
  {
    var clean := CleanAsWritten(sheet.ast);
    if clean == [] {
      Detach(sheet.el, doc, kids, up);
    } else {
      sheet.el.text := generate(clean);
    }
  }

  /** The `<style>` elements whose sheet keeps something after the cleanup: they are printed back. */
  function Printed(sheets: seq<Sheet>): set<Element>
  {
    set i | 0 <= i < |sheets| && CleanAsWritten(sheets[i].ast) != [] :: sheets[i].el
  }

  /** The `<style>` elements whose sheet is left with nothing: they leave the tree. */
  function Emptied(sheets: seq<Sheet>): set<Element>
  {
    set i | 0 <= i < |sheets| && CleanAsWritten(sheets[i].ast) == [] :: sheets[i].el
  }

  /** The `<style>` elements of the sheets. */
  function StyleEls(sheets: seq<Sheet>): set<Element>
  {
    set i | 0 <= i < |sheets| :: sheets[i].el
  }

  /** `kids` and `up` hold the children and the parent of every element of `doc`. */
  predicate Mirrored(doc: set<Element>, kids: map<Element, seq<Element>>, up: map<Element, Element?>)
    reads doc
  {
    forall x :: x in doc ==> x in kids && x.content == kids[x] && x in up && up[x] == x.parentNode
  }

  /**
   * The children after the removal of the emptied `<style>` element `el`, as
   * `kids` gives them before it and `up` gives the parents: `el` leaves its
   * parent's children, and a `<defs>` parent left without children leaves its
   * own parent's.
   */
  function UnlinkStep(kids: map<Element, seq<Element>>, up: map<Element, Element?>, el: Element): (r: map<Element, seq<Element>>)
    ensures r.Keys == kids.Keys
  {
    if el in up && up[el] != null && up[el] in kids then
      var p: Element := up[el];
      var c := Detached(kids[p], el);
      if p.elem == "defs" && c == [] && p in up && up[p] != null && up[p] in kids then
        var gp: Element := up[p];
        kids[p := c][gp := Detached(kids[p := c][gp], p)]
      else kids[p := c]
    else kids
  }

  /** The children after the sheet cleanup: one `UnlinkStep` per emptied sheet, in order. */
  function Unlinked(kids: map<Element, seq<Element>>, up: map<Element, Element?>, sheets: seq<Sheet>): (r: map<Element, seq<Element>>)
    ensures r.Keys == kids.Keys
  {
    if sheets == [] then kids
    else
      var front := Unlinked(kids, up, sheets[..|sheets| - 1]);
      var last := sheets[|sheets| - 1];
      if CleanAsWritten(last.ast) == [] then UnlinkStep(front, up, last.el) else front
  }

  /** `s` without the items in `gone`, in order. */
  function Keep<T>(s: seq<T>, gone: set<T>): (r: seq<T>)
  {
    if s == [] then [] else (if s[0] in gone then [] else [s[0]]) + Keep(s[1..], gone)
  }

  /**
   * The children each element has when the document is a tree: every child
   * names its parent and occurs once among its children, and every element
   * with a parent is among that parent's children.
   */
  ghost predicate Tree(kids: map<Element, seq<Element>>, up: map<Element, Element?>) {
    && kids.Keys == up.Keys
    && (forall x, c :: x in kids && c in kids[x] ==> c in up && up[c] == x && multiset(kids[x])[c] == 1)
    && (forall e :: e in up && up[e] != null ==> up[e] in kids && e in kids[up[e]])
  }

  /** A child of a tree is in it, below its parent. */
  lemma TreeChild(kids: map<Element, seq<Element>>, up: map<Element, Element?>, x: Element, c: Element)
    requires Tree(kids, up) && x in kids && c in kids[x]
    ensures c in up && c in kids && up[c] == x
  {
  }

  /** No `<defs>` element has a `<defs>` child. */
  ghost predicate NoNestedDefs(kids: map<Element, seq<Element>>) {
    forall x, c :: x in kids && x.elem == "defs" && c in kids[x] ==> c.elem != "defs"
  }

  /**
   * What the sheet cleanup takes out of the tree, given the emptied `<style>`
   * elements: those, and the `<defs>` elements whose children all are.
   */
  function Leaving(kids: map<Element, seq<Element>>, emptied: set<Element>): set<Element>
  {
    emptied + set d | d in kids && d.elem == "defs" && kids[d] != [] && (forall c :: c in kids[d] ==> c in emptied)
  }

  /** An item is kept exactly when it is not in `gone`. */
  lemma {:induction false} KeepMember<T>(s: seq<T>, gone: set<T>, y: T)
    requires y in s
    ensures y in Keep(s, gone) <==> y !in gone
  {
    if s[0] != y {
      KeepMember(s[1..], gone, y);
    } else if y in s[1..] {
      KeepMember(s[1..], gone, y);
    } else {
      KeepOut(s[1..], gone, y);
    }
  }

  /** Nothing that `s` lacks is kept. */
  lemma {:induction false} KeepOut<T>(s: seq<T>, gone: set<T>, y: T)
    requires y !in s
    ensures y !in Keep(s, gone)
  {
    if s != [] {
      KeepOut(s[1..], gone, y);
    }
  }

  /** Nothing is kept exactly when every item is in `gone`. */
  lemma {:induction false} KeepEmpty<T>(s: seq<T>, gone: set<T>)
    ensures Keep(s, gone) == [] <==> forall y :: y in s ==> y in gone
  {
    if s != [] {
      KeepEmpty(s[1..], gone);
      assert forall y :: y in s <==> y == s[0] || y in s[1..];
    }
  }

  /** Two sets that agree on the items of `s` keep the same items. */
  lemma {:induction false} KeepAgree<T>(s: seq<T>, g1: set<T>, g2: set<T>)
    requires forall y :: y in s ==> (y in g1 <==> y in g2)
    ensures Keep(s, g1) == Keep(s, g2)
  {
    if s != [] {
      assert s[0] in s;
      assert forall y :: y in s[1..] ==> y in s;
      KeepAgree(s[1..], g1, g2);
    }
  }

  /** Adding an item that is not in `s` to `gone` keeps the same items. */
  lemma KeepWithout<T>(s: seq<T>, gone: set<T>, y: T)
    requires y !in s
    ensures Keep(s, gone + {y}) == Keep(s, gone)
  {
    KeepAgree(s, gone, gone + {y});
  }

  /** Splicing out a child that occurs once takes it out of what is kept. */
  lemma {:induction false} KeepDetached<T>(s: seq<T>, gone: set<T>, c: T)
    requires c in s && multiset(s)[c] == 1 && c !in gone
    ensures Detached(Keep(s, gone), c) == Keep(s, gone + {c})
  {
    assert s == [s[0]] + s[1..];
    assert multiset(s) == multiset{s[0]} + multiset(s[1..]);
    if s[0] == c {
      KeepDetachedHead(s, gone);
    } else {
      KeepDetached(s[1..], gone, c);
      KeepDetachedTail(s, gone, c);
    }
  }

  /** `KeepDetached` when the child comes later than the head. */
  lemma KeepDetachedTail<T>(s: seq<T>, gone: set<T>, c: T)
    requires s != [] && s[0] != c && c in s[1..] && c !in gone
    requires Detached(Keep(s[1..], gone), c) == Keep(s[1..], gone + {c})
    ensures Detached(Keep(s, gone), c) == Keep(s, gone + {c})
  {
    var rest := Keep(s[1..], gone);
    assert Keep(s, gone) == (if s[0] in gone then [] else [s[0]]) + rest;
    assert Keep(s, gone + {c}) == (if s[0] in gone then [] else [s[0]]) + Keep(s[1..], gone + {c});
    if s[0] !in gone {
      KeepMember(s[1..], gone, c);
      DetachedCons(s[0], rest, c);
    } else {
      assert Keep(s, gone) == rest;
    }
  }

  /** `KeepDetached` when the child heads the list. */
  lemma KeepDetachedHead<T>(s: seq<T>, gone: set<T>)
    requires s != [] && s[0] !in s[1..] && s[0] !in gone
    ensures Detached(Keep(s, gone), s[0]) == Keep(s, gone + {s[0]})
  {
    var c, rest := s[0], Keep(s[1..], gone);
    assert Keep(s, gone) == [c] + rest;
    assert ([c] + rest)[1..] == rest;
    assert Detached([c] + rest, c) == rest;
    KeepAgree(s[1..], gone, gone + {c});
  }

  /** Splicing a present child out of a longer list leaves the head. */
  lemma DetachedCons<T>(a: T, s: seq<T>, c: T)
    requires a != c && c in s
    ensures Detached([a] + s, c) == [a] + Detached(s, c)
  {
    assert ([a] + s)[1..] == s;
    var i := IndexOf(s, c);
    assert ([a] + s)[..i + 1] == [a] + s[..i];
    assert ([a] + s)[i + 2..] == s[i + 1..];
  }

  /** The last sheet's element is not among the front's, and no sheet's element is a `<defs>`. */
  lemma EmptiedLast(sheets: seq<Sheet>)
    requires DistinctEls(sheets) && sheets != []
    requires forall i :: 0 <= i < |sheets| ==> sheets[i].el.elem != "defs"
    ensures var front, last := sheets[..|sheets| - 1], sheets[|sheets| - 1];
            && last.el !in Emptied(front)
            && forall f :: f in Emptied(front) + {last.el} ==> f.elem != "defs"
  {
    var front := sheets[..|sheets| - 1];
    assert forall i :: 0 <= i < |front| ==> front[i] == sheets[i];
  }

  /** The emptied sheets of a longer list: those of the front, and the last one's element if it is emptied. */
  lemma EmptiedSnoc(sheets: seq<Sheet>)
    requires sheets != []
    ensures var last := sheets[|sheets| - 1];
            Emptied(sheets) == Emptied(sheets[..|sheets| - 1]) + (if CleanAsWritten(last.ast) == [] then {last.el} else {})
  {
    var front := sheets[..|sheets| - 1];
    forall i | 0 <= i < |front|
      ensures front[i] == sheets[i]
    {
    }
  }

  /** Nothing goes when nothing is to go. */
  lemma {:induction false} KeepNone<T>(s: seq<T>)
    ensures Keep(s, {}) == s
  {
    if s != [] {
      KeepNone(s[1..]);
    }
  }

  /**
   * One more emptied `<style>` element `el` adds itself to what leaves, and
   * its `<defs>` parent when every child of that parent now leaves.
   */
  lemma LeavingStep(kids: map<Element, seq<Element>>, up: map<Element, Element?>, emptied: set<Element>, el: Element)
    requires Tree(kids, up) && NoNestedDefs(kids)
    requires el in up && up[el] != null && el !in emptied
    requires forall f :: f in emptied + {el} ==> f.elem != "defs"
    ensures var p: Element := up[el];
            Leaving(kids, emptied + {el}) ==
              Leaving(kids, emptied) + {el}
              + (if p.elem == "defs" && (forall y :: y in kids[p] ==> y in Leaving(kids, emptied) + {el}) then {p} else {})
  {
    var p: Element := up[el];
    var before, after := Leaving(kids, emptied), Leaving(kids, emptied + {el});
    var full := p.elem == "defs" && (forall y :: y in kids[p] ==> y in before + {el});
    var rhs := before + {el} + (if full then {p} else {});
    forall y | y in after
      ensures y in rhs
    {
      if y !in emptied + {el} && y != p {
        assert el !in kids[y];
      }
    }
    forall y | y in rhs
      ensures y in after
    {
      if y == p && full {
        assert el in kids[p];
        forall c | c in kids[p]
          ensures c in emptied + {el}
        {
          assert c.elem != "defs";
        }
      }
    }
    assert after == rhs;
  }

  /** One `UnlinkStep` on a tree takes out of every element's children what `Leaving` adds. */
  lemma StepKeeps(kids: map<Element, seq<Element>>, up: map<Element, Element?>, emptied: set<Element>, el: Element,
                  front: map<Element, seq<Element>>)
    requires Tree(kids, up) && NoNestedDefs(kids)
    requires el in up && up[el] != null && el !in emptied
    requires forall f :: f in emptied + {el} ==> f.elem != "defs"
    requires front.Keys == kids.Keys && forall x :: x in kids ==> front[x] == Keep(kids[x], Leaving(kids, emptied))
    ensures forall x :: x in kids ==> UnlinkStep(front, up, el)[x] == Keep(kids[x], Leaving(kids, emptied + {el}))
  {
    var p: Element := up[el];
    var before, after := Leaving(kids, emptied), Leaving(kids, emptied + {el});
    assert el in kids[p] && multiset(kids[p])[el] == 1;
    KeepDetached(kids[p], before, el);
    var c := Detached(front[p], el);
    KeepEmpty(kids[p], before + {el});
    LeavingStep(kids, up, emptied, el);
    var full := p.elem == "defs" && c == [];
    assert after == before + {el} + (if full then {p} else {});
    assert forall x :: x in kids && el in kids[x] ==> x == p;
    if full {
      assert p !in kids[p];
      assert p !in before by {
        assert el in kids[p];
      }
    }
    if full && up[p] != null {
      var gp: Element := up[p];
      assert p in kids[gp] && multiset(kids[gp])[p] == 1;
      assert gp != p;
      KeepDetached(kids[gp], before, p);
      assert forall x :: x in kids && p in kids[x] ==> x == gp;
      StepKeepsDefs(kids, up, front, el, p, gp, before, after);
    } else {
      assert full ==> forall x :: x in kids ==> p !in kids[x];
      StepKeepsInPlace(kids, up, front, el, p, before, after);
    }
  }

  /** `StepKeeps` when `el`'s `<defs>` parent `p` goes too, out of `gp`'s children. */
  lemma StepKeepsDefs(kids: map<Element, seq<Element>>, up: map<Element, Element?>, front: map<Element, seq<Element>>,
                      el: Element, p: Element, gp: Element, before: set<Element>, after: set<Element>)
    requires front.Keys == kids.Keys && forall x :: x in kids ==> front[x] == Keep(kids[x], before)
    requires el in up && up[el] == p && p in kids && p in up && up[p] == gp && gp in kids && gp != p
    requires p.elem == "defs" && Detached(front[p], el) == [] && Detached(front[p], el) == Keep(kids[p], before + {el})
    requires Detached(front[gp], p) == Keep(kids[gp], before + {p})
    requires forall x :: x in kids && el in kids[x] ==> x == p
    requires forall x :: x in kids && p in kids[x] ==> x == gp
    requires p !in kids[p] && after == before + {el} + {p}
    ensures forall x :: x in kids ==> UnlinkStep(front, up, el)[x] == Keep(kids[x], after)
  {
    var c := Detached(front[p], el);
    var twice := front[p := c][gp := Detached(front[gp], p)];
    forall x | x in kids
      ensures UnlinkStep(front, up, el)[x] == Keep(kids[x], after)
    {
      assert UnlinkStep(front, up, el)[x] == twice[x];
      if x == gp {
        assert twice[x] == Detached(front[gp], p);
        KeepWithout(kids[x], before + {p}, el);
        assert after == before + {p} + {el};
      } else if x == p {
        assert twice[x] == c;
        KeepWithout(kids[x], before + {el}, p);
      } else {
        assert twice[x] == front[x];
        KeepWithout(kids[x], before, el);
        KeepWithout(kids[x], before + {el}, p);
      }
    }
  }

  /** `StepKeeps` when only `el` leaves the children of its parent `p`. */
  lemma StepKeepsInPlace(kids: map<Element, seq<Element>>, up: map<Element, Element?>, front: map<Element, seq<Element>>,
                         el: Element, p: Element, before: set<Element>, after: set<Element>)
    requires front.Keys == kids.Keys && forall x :: x in kids ==> front[x] == Keep(kids[x], before)
    requires el in up && up[el] == p && p in kids && p in up
    requires Detached(front[p], el) == Keep(kids[p], before + {el})
    requires forall x :: x in kids && el in kids[x] ==> x == p
    requires var full := p.elem == "defs" && Detached(front[p], el) == [];
             && (full ==> up[p] == null && p !in kids[p] && forall x :: x in kids ==> p !in kids[x])
             && after == before + {el} + (if full then {p} else {})
    ensures forall x :: x in kids ==> UnlinkStep(front, up, el)[x] == Keep(kids[x], after)
  {
    forall x | x in kids
      ensures UnlinkStep(front, up, el)[x] == Keep(kids[x], after)
    {
      if x == p {
        KeepAgree(kids[x], before + {el}, after);
      } else {
        KeepAgree(kids[x], before, after);
      }
    }
  }

  /**
   * When the document is a tree with no `<defs>` inside a `<defs>`, the sheet
   * cleanup takes out of every element's children exactly the emptied
   * `<style>` elements and the `<defs>` elements whose children all were
   * emptied, and keeps the rest in order.
   */
  lemma {:induction false} UnlinkedKeeps(kids: map<Element, seq<Element>>, up: map<Element, Element?>, sheets: seq<Sheet>)
    requires Tree(kids, up) && NoNestedDefs(kids) && DistinctEls(sheets)
    requires forall i :: 0 <= i < |sheets| ==> sheets[i].el in up && up[sheets[i].el] != null && sheets[i].el.elem != "defs"
    ensures forall x :: x in kids ==> Unlinked(kids, up, sheets)[x] == Keep(kids[x], Leaving(kids, Emptied(sheets)))
  {
    if sheets == [] {
      UnlinkedNothing(kids, up);
    } else {
      var front := sheets[..|sheets| - 1];
      assert forall i :: 0 <= i < |front| ==> front[i] == sheets[i];
      UnlinkedKeeps(kids, up, front);
      UnlinkedLast(kids, up, sheets);
    }
  }

  /** `UnlinkedKeeps` with no sheets: nothing leaves. */
  lemma UnlinkedNothing(kids: map<Element, seq<Element>>, up: map<Element, Element?>)
    ensures forall x :: x in kids ==> Unlinked(kids, up, [])[x] == Keep(kids[x], Leaving(kids, Emptied([])))
  {
    assert Emptied([]) == {};
    forall x | x in kids
      ensures kids[x] == Keep(kids[x], Leaving(kids, {}))
    {
      forall y | y in kids[x]
        ensures y !in Leaving(kids, {})
      {
        if y in kids && kids[y] != [] {
          assert kids[y][0] in kids[y];
        }
      }
      KeepAgree(kids[x], {}, Leaving(kids, {}));
      KeepNone(kids[x]);
    }
  }

  /** The step of `UnlinkedKeeps`: from the sheets but the last to all of them. */
  lemma UnlinkedLast(kids: map<Element, seq<Element>>, up: map<Element, Element?>, sheets: seq<Sheet>)
    requires Tree(kids, up) && NoNestedDefs(kids) && DistinctEls(sheets) && sheets != []
    requires forall i :: 0 <= i < |sheets| ==> sheets[i].el in up && up[sheets[i].el] != null && sheets[i].el.elem != "defs"
    requires var front := sheets[..|sheets| - 1];
             forall x :: x in kids ==> Unlinked(kids, up, front)[x] == Keep(kids[x], Leaving(kids, Emptied(front)))
    ensures forall x :: x in kids ==> Unlinked(kids, up, sheets)[x] == Keep(kids[x], Leaving(kids, Emptied(sheets)))
  {
    var front := sheets[..|sheets| - 1];
    var last := sheets[|sheets| - 1];
    EmptiedSnoc(sheets);
    if CleanAsWritten(last.ast) == [] {
      EmptiedLast(sheets);
      StepKeeps(kids, up, Emptied(front), last.el, Unlinked(kids, up, front));
      assert Unlinked(kids, up, sheets) == UnlinkStep(Unlinked(kids, up, front), up, last.el);
    } else {
      assert Emptied(sheets) == Emptied(front);
      assert Unlinked(kids, up, sheets) == Unlinked(kids, up, front);
    }
  }

  /**
   * On a tree with no `<defs>` inside a `<defs>`, a child leaves its parent in
   * the sheet cleanup exactly when it is an emptied `<style>` element or a
   * `<defs>` element whose children all are.
   */
  lemma CleanupRemovesExactly(kids: map<Element, seq<Element>>, up: map<Element, Element?>, sheets: seq<Sheet>, x: Element, c: Element)
    requires Tree(kids, up) && NoNestedDefs(kids) && DistinctEls(sheets)
    requires forall i :: 0 <= i < |sheets| ==> sheets[i].el in up && up[sheets[i].el] != null && sheets[i].el.elem != "defs"
    requires x in kids && c in kids[x]
    ensures c in Unlinked(kids, up, sheets)[x] <==>
              && c !in Emptied(sheets)
              && !(c.elem == "defs" && kids[c] != [] && forall y :: y in kids[c] ==> y in Emptied(sheets))
  {
    UnlinkedKeeps(kids, up, sheets);
    KeepMember(kids[x], Leaving(kids, Emptied(sheets)), c);
  }

  /**
   * The cleanup loop over all collected sheets, element by element: `single`
   * holds the elements that occurred once among their parent's children when
   * it started.
   */
  method CleanupLoop(sheets: seq<Sheet>, doc: set<Element>, generate: seq<CssNode> -> string, ghost single: set<Element>,
                     ghost kids: map<Element, seq<Element>>, ghost up: map<Element, Element?>)
    requires forall i :: 0 <= i < |sheets| ==> sheets[i].el in doc && Parented(sheets[i].el, doc)
    requires forall i, j :: 0 <= i < j < |sheets| ==> sheets[i].el != sheets[j].el
    requires single == set e | e in doc && Once(e)
    requires Mirrored(doc, kids, up)
    modifies doc
    ensures forall x :: x in doc ==>
              && x.attrs == old(x.attrs) && x.classes == old(x.classes) && x.style == old(x.style)
              && x.parentNode == old(x.parentNode)
    ensures forall x :: x in doc ==> multiset(x.content) <= old(multiset(x.content))
    ensures forall i :: 0 <= i < |sheets| ==>
              sheets[i].el.text == if CleanAsWritten(sheets[i].ast) != [] then generate(CleanAsWritten(sheets[i].ast)) else old(sheets[i].el.text)
    ensures forall x :: x in doc && x !in StyleEls(sheets) ==> x.text == old(x.text)
    ensures forall i :: 0 <= i < |sheets| && CleanAsWritten(sheets[i].ast) == [] && sheets[i].el in single ==> Gone(sheets[i].el)
    ensures forall x :: x in doc ==> x.content == Unlinked(kids, up, sheets)[x]
  {
    CleanupRounds(sheets, doc, generate, kids, up);
    UnlinkedShrinks(kids, up, sheets);
    forall i | 0 <= i < |sheets| && CleanAsWritten(sheets[i].ast) == [] && sheets[i].el in single
      ensures Gone(sheets[i].el)
    {
      MirroredGone(doc, kids, up, sheets, i);
    }
  }

  /** The loop of `CleanupLoop`, with `kids` and `up` holding the children and parents when it starts. */
  method CleanupRounds(sheets: seq<Sheet>, doc: set<Element>, generate: seq<CssNode> -> string,
                       ghost kids: map<Element, seq<Element>>, ghost up: map<Element, Element?>)
    requires forall i :: 0 <= i < |sheets| ==> sheets[i].el in doc && Parented(sheets[i].el, doc)
    requires forall i, j :: 0 <= i < j < |sheets| ==> sheets[i].el != sheets[j].el
    requires Mirrored(doc, kids, up)
    modifies doc
    ensures forall x :: x in doc ==>
              && x.attrs == old(x.attrs) && x.classes == old(x.classes) && x.style == old(x.style)
              && x.parentNode == old(x.parentNode)
    ensures forall i :: 0 <= i < |sheets| ==>
              sheets[i].el.text == if CleanAsWritten(sheets[i].ast) != [] then generate(CleanAsWritten(sheets[i].ast)) else old(sheets[i].el.text)
    ensures forall x :: x in doc && x !in StyleEls(sheets) ==> x.text == old(x.text)
    ensures Mirrored(doc, Unlinked(kids, up, sheets), up)
  {
    for k := 0 to |sheets|
      invariant forall x :: x in doc ==>
                  && x.attrs == old(x.attrs) && x.classes == old(x.classes) && x.style == old(x.style)
                  && x.parentNode == old(x.parentNode)
      invariant forall i :: 0 <= i < |sheets| ==>
                  sheets[i].el.text == if i < k && CleanAsWritten(sheets[i].ast) != [] then generate(CleanAsWritten(sheets[i].ast)) else old(sheets[i].el.text)
      invariant forall x :: x in doc && x !in StyleEls(sheets) ==> x.text == old(x.text)
      invariant Mirrored(doc, Unlinked(kids, up, sheets[..k]), up)
    {
      CleanupAt(sheets, k, doc, generate, kids, up);
    }
    assert sheets[..|sheets|] == sheets;
  }

  /** By the fold, an emptied `<style>` element that occurred at most once among its parent's children is gone from them. */
  lemma MirroredGone(doc: set<Element>, kids: map<Element, seq<Element>>, up: map<Element, Element?>, sheets: seq<Sheet>, i: nat)
    requires Mirrored(doc, Unlinked(kids, up, sheets), up)
    requires i < |sheets| && CleanAsWritten(sheets[i].ast) == [] && sheets[i].el in doc && Parented(sheets[i].el, doc)
    requires sheets[i].el.parentNode in kids && multiset(kids[sheets[i].el.parentNode])[sheets[i].el] <= 1
    ensures Gone(sheets[i].el)
  {
    var e := sheets[i].el;
    assert up[e] == e.parentNode;
    UnlinkedGone(kids, up, sheets, i);
  }

  /** One round of the cleanup loop: the sheet at `k` is printed back or its `<style>` element removed. */
  method CleanupAt(sheets: seq<Sheet>, k: nat, doc: set<Element>, generate: seq<CssNode> -> string,
                   ghost kids: map<Element, seq<Element>>, ghost up: map<Element, Element?>)
    requires k < |sheets| && sheets[k].el in doc && Parented(sheets[k].el, doc)
    requires forall i, j :: 0 <= i < j < |sheets| ==> sheets[i].el != sheets[j].el
    requires Mirrored(doc, Unlinked(kids, up, sheets[..k]), up)
    modifies doc
    ensures forall x :: x in doc ==>
              && x.attrs == old(x.attrs) && x.classes == old(x.classes) && x.style == old(x.style)
              && x.parentNode == old(x.parentNode)
    ensures forall i :: 0 <= i < |sheets| ==>
              sheets[i].el.text == if i == k && CleanAsWritten(sheets[i].ast) != [] then generate(CleanAsWritten(sheets[i].ast)) else old(sheets[i].el.text)
    ensures forall x :: x in doc && x !in StyleEls(sheets) ==> x.text == old(x.text)
    ensures Mirrored(doc, Unlinked(kids, up, sheets[..k + 1]), up)
  {
    var el := sheets[k].el;
    UnlinkedNext(kids, up, sheets, k);
    assert el in StyleEls(sheets);
    CleanupSheet(sheets[k], doc, generate, Unlinked(kids, up, sheets[..k]), up);
    forall i | 0 <= i < |sheets| && i != k
      ensures sheets[i].el.text == old(sheets[i].el.text)
    {
      assert sheets[i].el != el;
    }
  }

  /** A removal step only takes children away. */
  lemma UnlinkStepShrinks(kids: map<Element, seq<Element>>, up: map<Element, Element?>, el: Element)
    ensures forall x :: x in kids ==> multiset(UnlinkStep(kids, up, el)[x]) <= multiset(kids[x])
  {
    if el in up && up[el] != null && up[el] in kids {
      var p: Element := up[el];
      DetachedSpec(kids[p], el);
      if EmptiesDefs(p, kids[p], el) && p in up && up[p] != null && up[p] in kids {
        var gp: Element := up[p];
        UnlinkStepDefs(kids, up, el, p, gp);
        DetachedSpec(kids[p := []][gp], p);
      } else {
        UnlinkStepInPlace(kids, up, el, p);
      }
    }
  }

  /** `UnlinkStep` when the removal empties a `<defs>` parent `p` whose own parent is `gp`. */
  lemma UnlinkStepDefs(kids: map<Element, seq<Element>>, up: map<Element, Element?>, el: Element, p: Element, gp: Element)
    requires el in up && up[el] == p && p in kids && p in up && up[p] == gp && gp in kids
    requires EmptiesDefs(p, kids[p], el)
    ensures forall x :: x in kids ==>
              UnlinkStep(kids, up, el)[x] == if x == gp then Detached(kids[p := []][gp], p) else if x == p then [] else kids[x]
  {
  }

  /** `UnlinkStep` when the parent `p` is not a `<defs>` the removal empties under a known parent. */
  lemma UnlinkStepInPlace(kids: map<Element, seq<Element>>, up: map<Element, Element?>, el: Element, p: Element)
    requires el in up && up[el] == p && p in kids
    requires !(EmptiesDefs(p, kids[p], el) && p in up && up[p] != null && up[p] in kids)
    ensures forall x :: x in kids ==> UnlinkStep(kids, up, el)[x] == if x == p then Detached(kids[p], el) else kids[x]
  {
  }

  /** The sheet cleanup only takes children away. */
  lemma {:induction false} UnlinkedShrinks(kids: map<Element, seq<Element>>, up: map<Element, Element?>, sheets: seq<Sheet>)
    ensures forall x :: x in kids ==> multiset(Unlinked(kids, up, sheets)[x]) <= multiset(kids[x])
  {
    if sheets != [] {
      var front := sheets[..|sheets| - 1];
      UnlinkedShrinks(kids, up, front);
      UnlinkStepShrinks(Unlinked(kids, up, front), up, sheets[|sheets| - 1].el);
    }
  }

  /**
   * An emptied `<style>` element that occurs at most once among its parent's
   * children is no longer among them after the sheet cleanup.
   */
  lemma {:induction false} UnlinkedGone(kids: map<Element, seq<Element>>, up: map<Element, Element?>, sheets: seq<Sheet>, i: nat)
    requires i < |sheets| && CleanAsWritten(sheets[i].ast) == []
    requires sheets[i].el in up && up[sheets[i].el] != null && up[sheets[i].el] in kids
    requires multiset(kids[up[sheets[i].el]])[sheets[i].el] <= 1
    ensures sheets[i].el !in Unlinked(kids, up, sheets)[up[sheets[i].el]]
  {
    var e, p: Element := sheets[i].el, up[sheets[i].el];
    var front, last := sheets[..|sheets| - 1], sheets[|sheets| - 1];
    var cur := Unlinked(kids, up, front);
    assert Unlinked(kids, up, sheets) == if CleanAsWritten(last.ast) == [] then UnlinkStep(cur, up, last.el) else cur;
    if i == |sheets| - 1 {
      UnlinkedShrinks(kids, up, front);
      assert multiset(cur[p])[e] <= multiset(kids[p])[e];
      UnlinkStepRemoves(cur, up, e);
    } else {
      assert front[i] == sheets[i];
      UnlinkedGone(kids, up, front, i);
      assert multiset(cur[p])[e] == 0;
      UnlinkStepShrinks(cur, up, last.el);
      assert multiset(UnlinkStep(cur, up, last.el)[p])[e] <= multiset(cur[p])[e];
    }
  }

  /** A removal step takes out an element that occurs at most once among its parent's children. */
  lemma UnlinkStepRemoves(kids: map<Element, seq<Element>>, up: map<Element, Element?>, el: Element)
    requires el in up && up[el] != null && up[el] in kids && multiset(kids[up[el]])[el] <= 1
    ensures el !in UnlinkStep(kids, up, el)[up[el]]
  {
    var p: Element := up[el];
    DetachedSpec(kids[p], el);
    var c := Detached(kids[p], el);
    if p.elem == "defs" && c == [] && p in up && up[p] != null && up[p] in kids {
      DetachedSpec(kids[p := c][up[p]], p);
    }
  }

  /** `Unlinked` over one more sheet. */
  lemma UnlinkedNext(kids: map<Element, seq<Element>>, up: map<Element, Element?>, sheets: seq<Sheet>, k: nat)
    requires k < |sheets|
    ensures Unlinked(kids, up, sheets[..k + 1]) ==
              if CleanAsWritten(sheets[k].ast) == [] then UnlinkStep(Unlinked(kids, up, sheets[..k]), up, sheets[k].el)
              else Unlinked(kids, up, sheets[..k])
  {
    assert sheets[..k + 1][..k] == sheets[..k];
  }

  /** The cleanup loop over all collected sheets. */
  method CleanupSheets(sheets: seq<Sheet>, doc: set<Element>, generate: seq<CssNode> -> string,
                       ghost kids: map<Element, seq<Element>>, ghost up: map<Element, Element?>)
    requires forall i :: 0 <= i < |sheets| ==> sheets[i].el in doc && Parented(sheets[i].el, doc)
    requires forall i, j :: 0 <= i < j < |sheets| ==> sheets[i].el != sheets[j].el
    requires Mirrored(doc, kids, up)
    modifies doc
    ensures forall x :: x in doc ==>
              && x.attrs == old(x.attrs) && x.classes == old(x.classes) && x.style == old(x.style)
              && x.parentNode == old(x.parentNode)
    ensures forall x :: x in doc ==> multiset(x.content) <= old(multiset(x.content))
    ensures forall i :: 0 <= i < |sheets| && CleanAsWritten(sheets[i].ast) != [] ==> sheets[i].el.text == generate(CleanAsWritten(sheets[i].ast))
    ensures forall e :: e in doc && e !in Printed(sheets) ==> e.text == old(e.text)
    ensures forall e :: e in doc && e in Emptied(sheets) && old(Once(e)) ==> Gone(e)
    ensures forall x :: x in doc ==> x.content == Unlinked(kids, up, sheets)[x]
  {
    ghost var single := set e | e in doc && Once(e);
    CleanupLoop(sheets, doc, generate, single, kids, up);
    forall e | e in doc && e !in Printed(sheets)
      ensures e.text == old(e.text)
    {
      if e in StyleEls(sheets) {
        var i :| 0 <= i < |sheets| && sheets[i].el == e;
        assert CleanAsWritten(sheets[i].ast) == [];
      }
    }
    forall e | e in doc && e in Emptied(sheets) && old(Once(e))
      ensures Gone(e)
    {
      var i :| 0 <= i < |sheets| && CleanAsWritten(sheets[i].ast) == [] && sheets[i].el == e;
      assert e in single;
    }
  }

  // ---------------------------------------------------------------------------
  // The plugin

  /** Every element a query returns is in `doc`. */
  ghost predicate QueriesIn(query: string -> Query, doc: set<Element>) {
    forall text :: query(text).Found? ==> forall e :: e in query(text).els ==> e in doc
  }

  /** No two sheets share a `<style>` element. */
  predicate DistinctEls(sheets: seq<Sheet>) {
    forall i, j :: 0 <= i < j < |sheets| ==> sheets[i].el != sheets[j].el
  }

  /** Every sheet's `<style>` element lies in `doc` with its parent. */
  predicate SheetsIn(sheets: seq<Sheet>, doc: set<Element>)
    reads set i | 0 <= i < |sheets| :: sheets[i].el
    reads set i | 0 <= i < |sheets| :: sheets[i].el.parentNode
  {
    forall i :: 0 <= i < |sheets| ==> sheets[i].el in doc && Parented(sheets[i].el, doc)
  }

  /** The matched elements come from the queries, so they lie in `doc`. */
  lemma MatchedInDoc(recs: seq<SelectorRec>, query: string -> Query, doc: set<Element>)
    requires QueriesIn(query, doc) && MatchAll(recs, query).Success?
    ensures Touched(MatchAll(recs, query).value) <= doc
  {
    var ms := MatchAll(recs, query).value;
    forall e | e in Touched(ms)
      ensures e in doc
    {
      var k :| 0 <= k < |ms| && ms[k].Some? && e in ms[k].value;
      assert Selected(query(recs[k].item.text)) == Success(ms[k]);
    }
  }

  /** Distinct `<style>` elements give sheets with distinct elements. */
  lemma {:induction false} CollectedDistinct(sources: seq<StyleSource>)
    requires forall i, j :: 0 <= i < j < |sources| ==> sources[i].el != sources[j].el
    ensures DistinctEls(Collected(sources))
  {
    if sources != [] {
      var front := sources[..|sources| - 1];
      CollectedDistinct(front);
      var last := sources[|sources| - 1];
      var r := Collected(front);
      forall k | 0 <= k < |r|
        ensures r[k].el != last.el
      {
        var j := CollectedSource(front, k);
        assert front[j] == sources[j];
      }
    }
  }

  /** The sheets' elements are among the sources', so they lie in `doc` with their parents. */
  lemma CollectedIn(sources: seq<StyleSource>, doc: set<Element>)
    requires forall s :: s in sources ==> s.el in doc && Parented(s.el, doc)
    ensures SheetsIn(Collected(sources), doc)
  {
    var r := Collected(sources);
    forall i | 0 <= i < |r|
      ensures r[i].el in doc && Parented(r[i].el, doc)
    {
      var j := CollectedSource(sources, i);
      assert sources[j] in sources;
    }
  }

  /** The fields of an element that the pass reads or writes, at one moment. */
  datatype Fields = Fields(attrs: map<string, Attribute>, classes: seq<string>, style: map<string, StyleValue>,
                           content: seq<Element>, text: string, parentNode: Element?)

  /** The fields of every element of `doc`. */
  function Snapshot(doc: set<Element>): (r: map<Element, Fields>)
    reads doc
    ensures r.Keys == doc
  {
    map e | e in doc :: Fields(e.attrs, e.classes, e.style, e.content, e.text, e.parentNode)
  }

  /** By the snapshot, `e` has a parent and occurs at most once among its children. */
  predicate OnceIn(before: map<Element, Fields>, e: Element) {
    && e in before && before[e].parentNode != null && before[e].parentNode in before
    && multiset(before[before[e].parentNode].content)[e] <= 1
  }

  /** The merge loop's effect: every selected element's style is its cascade, and no element moves. */
  predicate StylesInlined(doc: set<Element>, before: map<Element, Fields>, sorted: seq<SelectorRec>,
                          ms: seq<Option<seq<Element>>>, onlyMatchedOnce: bool)
    requires |sorted| == |ms|
    reads doc
  {
    forall e :: e in doc ==>
      && e in before && e.parentNode == before[e].parentNode
      && e.style == if e in Touched(ms) then Cascade(before[e].style, e, sorted, ms, onlyMatchedOnce, |sorted|) else before[e].style
  }

  /** Attributes, class lists, children and texts as they were. */
  predicate OthersKept(doc: set<Element>, before: map<Element, Fields>)
    reads doc
  {
    forall e :: e in doc ==>
      && e in before && e.attrs == before[e].attrs && e.classes == before[e].classes
      && e.content == before[e].content && e.text == before[e].text
  }

  /** The class and id cleanup's effect on every element. */
  predicate MarksCleaned(doc: set<Element>, before: map<Element, Fields>, sorted: seq<SelectorRec>,
                         ms: seq<Option<seq<Element>>>, onlyMatchedOnce: bool)
    requires |sorted| == |ms|
    reads doc
  {
    forall e :: e in doc ==>
      && e in before
      && Marks(e.classes, e.attrs) ==
           if e in Touched(ms) then Cleaned(Marks(before[e].classes, before[e].attrs), e, sorted, ms, onlyMatchedOnce, |sorted|)
           else Marks(before[e].classes, before[e].attrs)
  }

  /**
   * The sheet cleanup's effect: children are only taken away, a sheet that
   * keeps something is printed back, no other text changes, and an emptied
   * `<style>` element that occurred once among its parent's children is gone
   * from them.
   */
  predicate SheetsCleaned(doc: set<Element>, before: map<Element, Fields>, out: seq<Sheet>, generate: seq<CssNode> -> string)
    reads doc, StyleEls(out)
  {
    && before.Keys == doc
    && (forall e :: e in doc ==> multiset(e.content) <= multiset(before[e].content))
    && (forall i :: 0 <= i < |out| && CleanAsWritten(out[i].ast) != [] ==> out[i].el.text == generate(CleanAsWritten(out[i].ast)))
    && (forall e :: e in doc && e !in Printed(out) ==> e.text == before[e].text)
    && (forall e :: e in doc && e in Emptied(out) && OnceIn(before, e) ==> e.parentNode == before[e].parentNode && Gone(e))
    && (forall e :: e in doc ==> e.content == Unlinked(Kids(before), Ups(before), out)[e])
  }

  /**
   * After the sheet cleanup, on a document that was a tree with no `<defs>`
   * inside a `<defs>`: a child has left its parent exactly when it is an
   * emptied `<style>` element or a `<defs>` element all of whose children are.
   */
  lemma SheetsCleanedExactly(doc: set<Element>, before: map<Element, Fields>, out: seq<Sheet>,
                             generate: seq<CssNode> -> string, x: Element, c: Element)
    requires SheetsCleaned(doc, before, out, generate)
    requires Tree(Kids(before), Ups(before)) && NoNestedDefs(Kids(before)) && DistinctEls(out)
    requires forall i :: 0 <= i < |out| ==> out[i].el in before && before[out[i].el].parentNode != null && out[i].el.elem != "defs"
    requires x in doc && c in before[x].content
    ensures c in before
    ensures c in x.content <==>
              && c !in Emptied(out)
              && !(c.elem == "defs" && before[c].content != [] && forall y :: y in before[c].content ==> y in Emptied(out))
  {
    var kids, up := Kids(before), Ups(before);
    assert x.content == Unlinked(kids, up, out)[x];
    assert x in kids && c in kids[x];
    TreeChild(kids, up, x, c);
    assert kids[c] == before[c].content;
    assert forall i :: 0 <= i < |out| ==> out[i].el in up && up[out[i].el] != null;
    CleanupRemovesExactly(kids, up, out, x, c);
  }

  /** The children of every element, by the snapshot. */
  function Kids(before: map<Element, Fields>): map<Element, seq<Element>>
  {
    map e | e in before :: before[e].content
  }

  /** The parent of every element, by the snapshot. */
  function Ups(before: map<Element, Fields>): map<Element, Element?>
  {
    map e | e in before :: before[e].parentNode
  }

  /**
   * Everything after the matching: the merge loop, and with
   * `removeMatchedSelectors` the class and id cleanup and the sheet cleanup.
   * `before` holds the fields of the elements when it starts.
   */
  method Transform(doc: set<Element>, styles: seq<Sheet>, sorted: seq<SelectorRec>, ms: seq<Option<seq<Element>>>,
                   generate: seq<CssNode> -> string, onlyMatchedOnce: bool, removeMatchedSelectors: bool,
                   ghost before: map<Element, Fields>)
    returns (out: seq<Sheet>)
    requires |sorted| == |ms| && Touched(ms) <= doc
    requires SheetsIn(styles, doc) && DistinctEls(styles)
    requires before == Snapshot(doc)
    modifies doc
    ensures out == Removed(styles, sorted, ms, onlyMatchedOnce, removeMatchedSelectors, |sorted|)
    ensures StylesInlined(doc, before, sorted, ms, onlyMatchedOnce)
    ensures !removeMatchedSelectors ==> OthersKept(doc, before)
    ensures removeMatchedSelectors ==> MarksCleaned(doc, before, sorted, ms, onlyMatchedOnce)
    ensures removeMatchedSelectors ==> SheetsCleaned(doc, before, out, generate)
  {
    assert forall e :: e in doc ==> before[e] == Fields(e.attrs, e.classes, e.style, e.content, e.text, e.parentNode);
    out := Apply(sorted, ms, onlyMatchedOnce, removeMatchedSelectors, styles);
    assert StylesInlined(doc, before, sorted, ms, onlyMatchedOnce);
    if !removeMatchedSelectors {
      return;
    }
    assert forall i :: 0 <= i < |out| ==> out[i].el == styles[i].el;
    RemoveMatched(doc, out, sorted, ms, generate, onlyMatchedOnce, before);
  }

  /**
   * The cleanup of `removeMatchedSelectors`: the class and id cleanup, then
   * the sheet cleanup. `before` holds the fields of the elements before the
   * merge loop, which changed only their styles.
   */
  method RemoveMatched(doc: set<Element>, sheets: seq<Sheet>, sorted: seq<SelectorRec>, ms: seq<Option<seq<Element>>>,
                       generate: seq<CssNode> -> string, onlyMatchedOnce: bool, ghost before: map<Element, Fields>)
    requires |sorted| == |ms| && Touched(ms) <= doc
    requires SheetsIn(sheets, doc) && DistinctEls(sheets)
    requires before.Keys == doc && OthersKept(doc, before) && StylesInlined(doc, before, sorted, ms, onlyMatchedOnce)
    modifies doc
    ensures StylesInlined(doc, before, sorted, ms, onlyMatchedOnce)
    ensures MarksCleaned(doc, before, sorted, ms, onlyMatchedOnce)
    ensures SheetsCleaned(doc, before, sheets, generate)
  {
    CleanClasses(sorted, ms, onlyMatchedOnce);
    assert forall e :: e in doc ==> e.parentNode == old(e.parentNode) && e.content == old(e.content) && e.text == old(e.text);
    assert forall i :: 0 <= i < |sheets| ==> Parented(sheets[i].el, doc);
    forall e | e in doc && OnceIn(before, e)
      ensures Once(e)
    {
    }
    assert Mirrored(doc, Kids(before), Ups(before));
    CleanupSheets(sheets, doc, generate, Kids(before), Ups(before));
  }

  /**
   * The part of `fn` before any element changes: collecting the sheets,
   * sorting their selectors and querying each of them.
   */
  method Prepare(doc: set<Element>, styleEls: seq<StyleSource>, arrange: seq<SelectorRec> -> seq<SelectorRec>,
                 query: string -> Query)
    returns (styles: seq<Sheet>, sorted: seq<SelectorRec>, m: Result<seq<Option<seq<Element>>>, string>)
    requires forall s :: s in styleEls ==> s.el in doc && Parented(s.el, doc)
    requires forall i, j :: 0 <= i < j < |styleEls| ==> styleEls[i].el != styleEls[j].el
    requires QueriesIn(query, doc)
    ensures styles == Collected(styleEls) && sorted == Reverse(arrange(FlattenAll(styles)))
    ensures m == MatchAll(sorted, query)
    ensures m.Success? ==> |sorted| == |m.value| && Touched(m.value) <= doc
    ensures SheetsIn(styles, doc) && DistinctEls(styles)
  {
    var selectors;
    styles, selectors := Collect(styleEls);
    sorted := Reverse(arrange(selectors));
    m := Match(sorted, query);
    if m.Success? {
      MatchedInDoc(sorted, query, doc);
    }
    CollectedDistinct(styleEls);
    CollectedIn(styleEls, doc);
  }

  /**
   * `fn(document, opts)`.  `styleEls` is what `querySelectorAll('style')`
   * returns, with null as the empty sequence (the early return then leaves
   * the document as the loops over nothing would); `arrange` stands for the
   * media-query and pseudo-class filters and the stable specificity sort,
   * before the reversal; `query` for `querySelectorAll` on a selector's
   * text; `generate` for printing a sheet.  Besides the outcome it returns
   * the collected sheets, the sorted records, their matches and the sheets
   * after the selector removal.  A query that throws anything but an
   * unmatched-selector error ends the pass with that error before the
   * document changes.
   */
  method Fn(doc: set<Element>, styleEls: seq<StyleSource>, arrange: seq<SelectorRec> -> seq<SelectorRec>,
            query: string -> Query, generate: seq<CssNode> -> string, onlyMatchedOnce: bool, removeMatchedSelectors: bool)
    returns (r: Result<(), string>, styles: seq<Sheet>, sorted: seq<SelectorRec>,
             ms: seq<Option<seq<Element>>>, sheets: seq<Sheet>, ghost before: map<Element, Fields>)
    requires forall s :: s in styleEls ==> s.el in doc && Parented(s.el, doc)
    requires forall i, j :: 0 <= i < j < |styleEls| ==> styleEls[i].el != styleEls[j].el
    requires QueriesIn(query, doc)
    modifies doc
    ensures before == old(Snapshot(doc))
    ensures styles == old(Collected(styleEls)) && sorted == Reverse(arrange(FlattenAll(styles)))
    ensures r.Failure? ==> MatchAll(sorted, query) == Failure(r.error) && Snapshot(doc) == before
    ensures r.Success? ==>
              && MatchAll(sorted, query) == Success(ms)
              && sheets == Removed(styles, sorted, ms, onlyMatchedOnce, removeMatchedSelectors, |sorted|)
              && StylesInlined(doc, before, sorted, ms, onlyMatchedOnce)
    ensures r.Success? && !removeMatchedSelectors ==> OthersKept(doc, before)
    ensures r.Success? && removeMatchedSelectors ==>
              MarksCleaned(doc, before, sorted, ms, onlyMatchedOnce) && SheetsCleaned(doc, before, sheets, generate)
  {
    before := Snapshot(doc);
    var m;
    styles, sorted, m := Prepare(doc, styleEls, arrange, query);
    ms, sheets := [], [];
    assert before == Snapshot(doc);
    if m.Failure? {
      r := Failure(m.error);
      return;
    }
    ms := m.value;
    sheets := Transform(doc, styles, sorted, ms, generate, onlyMatchedOnce, removeMatchedSelectors, before);
    r := Success(());
  }
}
