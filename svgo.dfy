/**
 * The multipass driver of lib/svgo.js: `SVGO.prototype.optimize` runs one
 * optimisation pass (parse, plugins, serialise) after another, feeding each
 * pass the text the previous one printed, until the pass cap is reached or a
 * pass stops making the text strictly shorter.
 *
 * A single pass (`_optimizeOnce`) is a parameter: it maps a text to the
 * printed result or to a parse error.
 */
module Svgo {
  import opened Wrappers
  import Tools

  /** What `_optimizeOnce` hands to its callback: the printed text, or the parser's error. */
  datatype PassResult = Printed(data: string) | ParseError(error: string)

  /**
   * The parts of the configuration the driver reads.  `error` is set when
   * the configuration was rejected; `datauri` is the Data URI type, None
   * when it is not given.
   */
  datatype Config = Config(error: Option<string>, multipass: bool, datauri: Option<string>)

  /** The object the promise resolves with. */
  datatype Output = Output(data: string, path: Option<string>)

  /** The `info` object the caller passes: the driver writes `multipassCount` into it. */
  class Info {
    const path: Option<string>
    var multipassCount: Option<nat>

    constructor (path: Option<string>)
      ensures this.path == path && multipassCount == None
    {
      this.path := path;
      multipassCount := None;
    }
  }

  /** A JavaScript string is truthy when it is not empty. */
  predicate Truthy(s: Option<string>) {
    s.Some? && s.value != ""
  }

  /** `maxPassCount`. */
  function MaxPasses(config: Config): (r: nat)
    ensures r >= 1
    ensures config.multipass <==> r > 1
  {
    if config.multipass then 10 else 1
  }

  // ---------------------------------------------------------------------------
  // The passes as a function of the input

  /** The result of pass `k` (counting from 0) when every pass is fed the previous one's text; an error stays. */
  function Pass(input: string, once: string -> PassResult, k: nat): PassResult
  {
    if k == 0 then once(input)
    else match Pass(input, once, k - 1)
      case Printed(data) => once(data)
      case ParseError(e) => ParseError(e)
  }

  /**
   * After pass `k` the driver runs another pass: `k` printed, the cap allows
   * one more, and the text is strictly shorter than the one before it (the
   * first pass is compared with an infinite size).
   */
  predicate Continues(input: string, once: string -> PassResult, cap: nat, k: nat)
  {
    && Pass(input, once, k).Printed?
    && k + 1 < cap
    && (k > 0 ==> Pass(input, once, k - 1).Printed? &&
                  |Pass(input, once, k).data| < |Pass(input, once, k - 1).data|)
  }

  /** Running `passes` passes is where the driver stops: every earlier pass continued and this last one does not. */
  predicate Stops(input: string, once: string -> PassResult, cap: nat, passes: nat)
  {
    && passes >= 1
    && (forall k :: 0 <= k < passes - 1 ==> Continues(input, once, cap, k))
    && !Continues(input, once, cap, passes - 1)
  }

  /** What the driver makes of the last pass's text: Data URI encoding when the configuration asks for it. */
  function Finish(data: string, config: Config, base64: string -> string, uriEncode: string -> string): (r: string)
    ensures !Truthy(config.datauri) ==> r == data
    ensures Truthy(config.datauri) && config.datauri.value == "unenc" ==> r == Tools.Prefix + "," + data
  {
    if Truthy(config.datauri) then Tools.Encode(data, config.datauri, base64, uriEncode) else data
  }

  // ---------------------------------------------------------------------------
  // The driver

  /** Where the sizes are compared: `prevResultSize`, infinite before the first pass. */
  datatype Size = Infinite | Finite(n: nat)

  predicate Below(n: nat, s: Size) {
    s.Infinite? || n < s.n
  }

  /**
   * `optimize(svgstr, info)`.  `passes` is how many passes ran.  A rejected
   * configuration runs none; a parse error in any pass rejects with that
   * error and no partial result; otherwise the result is the last pass's text,
   * encoded once when asked, with `info.path` copied.
   */
  method Optimize(config: Config, input: string, info: Info, once: string -> PassResult,
                  base64: string -> string, uriEncode: string -> string)
    returns (r: Result<Output, string>, ghost passes: nat)
    modifies info
    ensures config.error.Some? ==> r == Failure(config.error.value) && passes == 0
    ensures config.error.None? ==> Stops(input, once, MaxPasses(config), passes)
    ensures config.error.None? ==> 1 <= passes <= MaxPasses(config)
    ensures r.Failure? && config.error.None? ==> Pass(input, once, passes - 1) == ParseError(r.error)
    ensures r.Success? ==>
              && config.error.None?
              && Pass(input, once, passes - 1).Printed?
              && r.value.data == Finish(Pass(input, once, passes - 1).data, config, base64, uriEncode)
              && r.value.path == (if Truthy(info.path) then info.path else None)
    ensures r.Success? ==> info.multipassCount == Some(passes - 1)
    ensures r.Failure? ==> info.multipassCount == if passes >= 2 then Some(passes - 2) else old(info.multipassCount)
  {
    if config.error.Some? {
      return Failure(config.error.value), 0;
    }
    var maxPassCount := MaxPasses(config);
    var counter := 0;
    var prevResultSize := Infinite;
    var svgjs := once(input);
    while true
      invariant counter < maxPassCount
      invariant svgjs == Pass(input, once, counter)
      invariant counter == 0 ==> prevResultSize == Infinite
      invariant counter > 0 ==> && Pass(input, once, counter - 1).Printed?
                                && prevResultSize == Finite(|Pass(input, once, counter - 1).data|)
      invariant forall k :: 0 <= k < counter ==> Continues(input, once, maxPassCount, k)
      invariant info.multipassCount == if counter >= 1 then Some(counter - 1) else old(info.multipassCount)
      decreases maxPassCount - counter
    {
      if svgjs.ParseError? {
        return Failure(svgjs.error), counter + 1;
      }
      info.multipassCount := Some(counter);
      counter := counter + 1;
      if counter < maxPassCount && Below(|svgjs.data|, prevResultSize) {
        prevResultSize := Finite(|svgjs.data|);
        svgjs := once(svgjs.data);
      } else {
        var data := svgjs.data;
        if Truthy(config.datauri) {
          data := Tools.Encode(data, config.datauri, base64, uriEncode);
        }
        var path := if Truthy(info.path) then info.path else None;
        return Success(Output(data, path)), counter;
      }
    }
  }

  // ---------------------------------------------------------------------------
  // Properties of the stopping rule

  /** The number of passes is determined by the input: two stopping points are the same. */
  lemma StopsUnique(input: string, once: string -> PassResult, cap: nat, p: nat, q: nat)
    requires Stops(input, once, cap, p) && Stops(input, once, cap, q)
    ensures p == q
  {
    var lastP: nat, lastQ: nat := p - 1, q - 1;
    assert lastP < lastQ ==> Continues(input, once, cap, lastP);
    assert lastQ < lastP ==> Continues(input, once, cap, lastQ);
  }

  /** Without `multipass` exactly one pass runs. */
  lemma SinglePass(input: string, once: string -> PassResult, config: Config, passes: nat)
    requires !config.multipass && Stops(input, once, MaxPasses(config), passes)
    ensures passes == 1
  {
    assert passes > 1 ==> Continues(input, once, MaxPasses(config), 0);
  }

  /**
   * The shrink rule alone bounds the passes: every pass after the first that
   * is followed by another printed a strictly shorter text, so however large
   * the cap, at most the first output's length plus two passes run.
   */
  lemma PassesBoundedBySize(input: string, once: string -> PassResult, cap: nat, passes: nat)
    requires Stops(input, once, cap, passes) && passes >= 2
    ensures Pass(input, once, 0).Printed?
    ensures passes <= |Pass(input, once, 0).data| + 2
  {
    assert Continues(input, once, cap, 0);
    ShrinkChain(input, once, cap, passes - 2);
  }

  /** Along continuing passes the length drops by at least one per pass. */
  lemma {:induction false} ShrinkChain(input: string, once: string -> PassResult, cap: nat, k: nat)
    requires forall j :: 0 <= j <= k ==> Continues(input, once, cap, j)
    ensures Pass(input, once, k).Printed? && Pass(input, once, 0).Printed?
    ensures |Pass(input, once, k).data| + k <= |Pass(input, once, 0).data|
  {
    assert Continues(input, once, cap, k);
    if k > 0 {
      ShrinkChain(input, once, cap, k - 1);
    }
  }

  /** The driver stops once a pass prints a text no shorter than the one before. */
  lemma StopsWhenNotShorter(input: string, once: string -> PassResult, cap: nat, passes: nat, k: nat)
    requires Stops(input, once, cap, passes) && 0 < k < passes
    requires Pass(input, once, k).Printed? && Pass(input, once, k - 1).Printed?
    requires |Pass(input, once, k).data| >= |Pass(input, once, k - 1).data|
    ensures passes == k + 1
  {
    assert k < passes - 1 ==> Continues(input, once, cap, k);
  }

  // ---------------------------------------------------------------------------
  // A worked run

  /** A pass that drops the last character of texts longer than four. */
  function Trim(s: string): PassResult {
    if |s| > 4 then Printed(s[..|s| - 1]) else Printed(s)
  }

  /**
   * Texts of lengths 5, 4 and 4 with the cap at 10: the third pass is not
   * shorter, so three passes run and `multipassCount` is 2.
   */
  lemma ThreePasses()
    ensures Stops("abcdef", Trim, 10, 3)
  {
    assert Pass("abcdef", Trim, 0) == Printed("abcde");
    assert Pass("abcdef", Trim, 1) == Printed("abcd");
    assert Pass("abcdef", Trim, 2) == Printed("abcd");
    assert Continues("abcdef", Trim, 10, 0) && Continues("abcdef", Trim, 10, 1);
  }
}
