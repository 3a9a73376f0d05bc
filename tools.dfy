/**
 * The string and number helpers of lib/svgo/tools.js: Data URI encoding and
 * decoding, array intersection, and the compact printing of a row of path
 * numbers.
 */
module Tools {
  import opened Wrappers

  // ---------------------------------------------------------------------------
  // Data URIs

  const Prefix: string := "data:image/svg+xml"

  /**
   * `encodeSVGDatauri(str, type)`.  `kind` is None when the argument is
   * undefined.  Base64 and percent encoding are foreign (`Buffer` and
   * `encodeURIComponent`) and are passed in.
   */
  function Encode(str: string, kind: Option<string>, base64: string -> string, uriEncode: string -> string): (r: string)
    ensures (kind.None? || kind.value in {"", "base64"}) ==> r == Prefix + ";base64," + base64(str)
    ensures kind == Some("enc") ==> r == Prefix + "," + uriEncode(str)
    ensures kind == Some("unenc") ==> r == Prefix + "," + str
    ensures kind.Some? && kind.value !in {"", "base64", "enc", "unenc"} ==> r == str
  {
    if kind.None? || kind.value == "" || kind.value == "base64" then Prefix + ";base64," + base64(str)
    else if kind.value == "enc" then Prefix + "," + uriEncode(str)
    else if kind.value == "unenc" then Prefix + "," + str
    else str
  }

  /** `s` has `t` at position `i`. */
  predicate HasAt(s: string, i: nat, t: string) {
    i + |t| <= |s| && forall k :: 0 <= k < |t| ==> s[i + k] == t[k]
  }

  /** The ECMAScript line terminators, which `.` in a regular expression does not match. */
  predicate IsLineTerminator(c: char) {
    c == '\n' || c == '\r' || c == '\U{2028}' || c == '\U{2029}'
  }

  /** What `(.*)` matches at the start of `s`: everything up to the first line terminator. */
  function Line(s: string): (r: string)
    ensures |r| <= |s| && r == s[..|r|]
    ensures forall k :: 0 <= k < |r| ==> !IsLineTerminator(r[k])
    ensures |r| < |s| ==> IsLineTerminator(s[|r|])
  {
    if s == [] || IsLineTerminator(s[0]) then [] else [s[0]] + Line(s[1..])
  }

  /** The end of `[^;,]*` matched greedily from `i`: the first `;` or `,` at or after `i`, or the end. */
  function CharsetEnd(s: string, i: nat): (r: nat)
    requires i <= |s|
    ensures i <= r <= |s|
    ensures forall k :: i <= k < r ==> s[k] != ';' && s[k] != ','
    ensures r < |s| ==> s[r] == ';' || s[r] == ','
    decreases |s| - i
  {
    if i == |s| || s[i] == ';' || s[i] == ',' then i else CharsetEnd(s, i + 1)
  }

  /** The groups of a successful match that decoding reads: whether `;base64` matched, and the data. */
  datatype UriMatch = UriMatch(base64: bool, data: string)

  /**
   * The regular expression
   *   data:image\/svg\+xml(;charset=[^;,]*)?(;base64)?,(.*)
   * tried at position `p`.  Backtracking never changes the outcome: a shorter
   * `[^;,]*` leaves a character other than `;` or `,` next, and skipping an
   * optional group leaves a `;` where `;base64` or `,` must follow, so the
   * greedy choice at each step is the only one that can succeed.
   */
  function MatchAt(s: string, p: nat): (r: Option<UriMatch>)
    requires p <= |s|
    ensures r.Some? ==> HasAt(s, p, Prefix)
  {
    if !HasAt(s, p, Prefix) then None
    else
      var q := p + |Prefix|;
      var afterCharset := if HasAt(s, q, ";charset=") then CharsetEnd(s, q + 9) else q;
      var isBase64 := HasAt(s, afterCharset, ";base64");
      var comma := if isBase64 then afterCharset + 7 else afterCharset;
      if comma < |s| && s[comma] == ',' then Some(UriMatch(isBase64, Line(s[comma + 1..]))) else None
  }

  /** The outcome of trying the expression at each position of `s`, its end included. */
  function Attempts(s: string): (r: seq<Option<UriMatch>>)
    ensures |r| == |s| + 1
  {
    seq(|s| + 1, p requires 0 <= p <= |s| => MatchAt(s, p))
  }

  /** The first success among `attempts` from index `p` on. */
  function FirstFrom(attempts: seq<Option<UriMatch>>, p: nat): Option<UriMatch>
    requires p <= |attempts|
    decreases |attempts| - p
  {
    if p == |attempts| then None
    else if attempts[p].Some? then attempts[p]
    else FirstFrom(attempts, p + 1)
  }

  /** `regexp.exec(str)`: the match at the leftmost position where the expression matches. */
  function Exec(s: string): Option<UriMatch>
  {
    FirstFrom(Attempts(s), 0)
  }

  lemma {:induction false} FirstFromFindsLeftmost(attempts: seq<Option<UriMatch>>, p: nat, k: nat)
    requires p <= k < |attempts| && attempts[k].Some?
    requires forall j :: p <= j < k ==> attempts[j].None?
    ensures FirstFrom(attempts, p) == attempts[k]
    decreases k - p
  {
    if p < k {
      FirstFromFindsLeftmost(attempts, p + 1, k);
    }
  }

  lemma {:induction false} FirstFromNone(attempts: seq<Option<UriMatch>>, p: nat)
    requires p <= |attempts|
    requires forall j :: p <= j < |attempts| ==> attempts[j].None?
    ensures FirstFrom(attempts, p).None?
    decreases |attempts| - p
  {
    if p < |attempts| {
      FirstFromNone(attempts, p + 1);
    }
  }

  /** The match found is the one at the leftmost position where the expression matches. */
  lemma ExecFindsLeftmost(s: string, k: nat)
    requires k <= |s| && MatchAt(s, k).Some?
    requires forall j :: 0 <= j < k ==> MatchAt(s, j).None?
    ensures Exec(s) == MatchAt(s, k)
  {
    FirstFromFindsLeftmost(Attempts(s), 0, k);
  }

  /** There is no match when the prefix occurs at no position. */
  lemma ExecNone(s: string)
    requires forall k :: 0 <= k <= |s| ==> !HasAt(s, k, Prefix)
    ensures Exec(s).None?
  {
    FirstFromNone(Attempts(s), 0);
  }

  /** `s.charAt(0)`: the first character, or the empty string. */
  function CharAt0(s: string): (r: string)
    ensures |r| <= 1 && r <= s
    ensures r == [] <==> s == []
  {
    if s == [] then "" else [s[0]]
  }

  /**
   * `decodeSVGDatauri(str)`.  Base64 and percent decoding are foreign and are
   * passed in; a percent decoding that fails (a URIError thrown by
   * `decodeURIComponent`) is Failure.  A matched URI whose data starts with
   * neither '%' nor '<' (or is empty), and is not base64, comes back as it is.
   */
  function Decode(str: string, base64Decode: string -> string, uriDecode: string -> Option<string>): (r: Result<string, string>)
    ensures Exec(str).None? ==> r == Success(str)
    ensures Exec(str).Some? && Exec(str).value.base64 ==> r == Success(base64Decode(Exec(str).value.data))
    ensures Exec(str).Some? && !Exec(str).value.base64 && CharAt0(Exec(str).value.data) == "%" ==>
              r == (match uriDecode(Exec(str).value.data) case None => Failure("URIError") case Some(d) => Success(d))
    ensures Exec(str).Some? && !Exec(str).value.base64 && CharAt0(Exec(str).value.data) == "<" ==> r == Success(Exec(str).value.data)
    ensures Exec(str).Some? && !Exec(str).value.base64 && CharAt0(Exec(str).value.data) !in {"%", "<"} ==> r == Success(str)
    ensures r.Failure? ==>
              (var m := Exec(str);
               m.Some? && !m.value.base64 && |m.value.data| > 0 && m.value.data[0] == '%' && uriDecode(m.value.data).None?)
  {
    match Exec(str)
    case None => Success(str)
    case Some(m) =>
      if m.base64 then Success(base64Decode(m.data))
      else if |m.data| > 0 && m.data[0] == '%' then
        match uriDecode(m.data)
        case None => Failure("URIError")
        case Some(d) => Success(d)
      else if |m.data| > 0 && m.data[0] == '<' then Success(m.data)
      else Success(str)
  }

  predicate NoLineBreak(s: string) {
    forall k :: 0 <= k < |s| ==> !IsLineTerminator(s[k])
  }

  /** The encoded string matches at position 0, and the data group is everything after the comma. */
  lemma EncodedMatches(payload: string, isBase64: bool)
    requires NoLineBreak(payload)
    ensures var s := Prefix + (if isBase64 then ";base64," else ",") + payload;
            Exec(s) == Some(UriMatch(isBase64, payload))
  {
    var s := Prefix + (if isBase64 then ";base64," else ",") + payload;
    var q := |Prefix|;
    assert forall k :: 0 <= k < q ==> s[k] == Prefix[k];
    assert s[q] == (if isBase64 then ';' else ',');
    assert isBase64 ==> s[q + 1] == 'b';
    assert s[q] != ";charset="[0] || s[q + 1] != ";charset="[1];
    if isBase64 {
      assert s[q..q + 7] == ";base64";
      assert s[q + 8..] == payload;
    } else {
      assert s[q] != ";base64"[0];
      assert s[q + 1..] == payload;
    }
    LineOfUnbroken(payload);
    ExecFindsLeftmost(s, 0);
  }

  lemma {:induction false} LineOfUnbroken(s: string)
    requires NoLineBreak(s)
    ensures Line(s) == s
  {
    if s != [] {
      LineOfUnbroken(s[1..]);
    }
  }

  /** Unencoded Data URIs decode back to the SVG text, when the text starts with `<` and is a single line. */
  lemma DecodeEncodeUnencoded(s: string, base64: string -> string, uriEncode: string -> string,
                              base64Decode: string -> string, uriDecode: string -> Option<string>)
    requires |s| > 0 && s[0] == '<' && NoLineBreak(s)
    ensures Decode(Encode(s, Some("unenc"), base64, uriEncode), base64Decode, uriDecode) == Success(s)
  {
    EncodedMatches(s, false);
  }

  /** Base64 Data URIs (the default) decode back, given a Base64 codec whose output is one line. */
  lemma DecodeEncodeBase64(s: string, kind: Option<string>, base64: string -> string, uriEncode: string -> string,
                           base64Decode: string -> string, uriDecode: string -> Option<string>)
    requires kind.None? || kind == Some("") || kind == Some("base64")
    requires NoLineBreak(base64(s)) && base64Decode(base64(s)) == s
    ensures Decode(Encode(s, kind, base64, uriEncode), base64Decode, uriDecode) == Success(s)
  {
    EncodedMatches(base64(s), true);
  }

  /** Percent-encoded Data URIs decode back, when the encoding starts with an escape (as it does for `<`). */
  lemma DecodeEncodePercent(s: string, base64: string -> string, uriEncode: string -> string,
                            base64Decode: string -> string, uriDecode: string -> Option<string>)
    requires NoLineBreak(uriEncode(s)) && |uriEncode(s)| > 0 && uriEncode(s)[0] == '%'
    requires uriDecode(uriEncode(s)) == Some(s)
    ensures Decode(Encode(s, Some("enc"), base64, uriEncode), base64Decode, uriDecode) == Success(s)
  {
    EncodedMatches(uriEncode(s), false);
  }

  /** A string with no Data URI prefix anywhere is returned as it is. */
  lemma DecodePlain(s: string, base64Decode: string -> string, uriDecode: string -> Option<string>)
    requires forall k :: 0 <= k <= |s| ==> !HasAt(s, k, Prefix)
    ensures Decode(s, base64Decode, uriDecode) == Success(s)
  {
    ExecNone(s);
  }

  // ---------------------------------------------------------------------------
  // Arrays

  /** `intersectArrays(a, b)`: the elements of `a`, in order and with repeats, that occur in `b`. */
  function IntersectArrays(a: seq<string>, b: seq<string>): (r: seq<string>)
    ensures |r| <= |a|
  {
    if a == [] then [] else (if a[0] in b then [a[0]] else []) + IntersectArrays(a[1..], b)
  }

  /** The result holds the elements of `a` that occur in `b`, each as often as in `a`, and nothing else. */
  lemma {:induction false} IntersectArraysCounts(a: seq<string>, b: seq<string>)
    ensures forall x :: x in IntersectArrays(a, b) <==> x in a && x in b
    ensures forall x :: multiset(IntersectArrays(a, b))[x] == if x in b then multiset(a)[x] else 0
  {
    if a != [] {
      IntersectArraysCounts(a[1..], b);
      assert a == [a[0]] + a[1..];
    }
  }

  /**
   * `filter` keeps order: the intersection of two pieces of `a` is the
   * intersection of the first followed by that of the second.  With
   * `IntersectArraysOne` this says that the result is `a` with the elements
   * not in `b` struck out.
   */
  lemma {:induction false} IntersectArraysAppend(a1: seq<string>, a2: seq<string>, b: seq<string>)
    ensures IntersectArrays(a1 + a2, b) == IntersectArrays(a1, b) + IntersectArrays(a2, b)
    decreases |a1|
  {
    if a1 == [] {
      assert a1 + a2 == a2;
    } else {
      var head := if a1[0] in b then [a1[0]] else [];
      assert (a1 + a2)[0] == a1[0] && (a1 + a2)[1..] == a1[1..] + a2;
      assert IntersectArrays(a1 + a2, b) == head + IntersectArrays(a1[1..] + a2, b);
      IntersectArraysAppend(a1[1..], a2, b);
      assert IntersectArrays(a1, b) == head + IntersectArrays(a1[1..], b);
    }
  }

  /** A single element is kept exactly when it occurs in `b`. */
  lemma IntersectArraysOne(x: string, b: seq<string>)
    ensures IntersectArrays([x], b) == if x in b then [x] else []
  {
    assert [x][1..] == [];
  }

  // ---------------------------------------------------------------------------
  // Numbers

  predicate IsDigit(c: char) { '0' <= c <= '9' }

  predicate AllDigits(s: string) { forall k :: 0 <= k < |s| ==> IsDigit(s[k]) }

  /**
   * A finite number as JavaScript prints it without an exponent: a sign, the
   * integer digits and the fraction digits.
   */
  datatype Decimal = Decimal(negative: bool, whole: string, fraction: string)

  /** The shape of `Number.prototype.toString` output: no leading or trailing zeros, and no negative zero. */
  predicate Canonical(d: Decimal) {
    && |d.whole| > 0 && AllDigits(d.whole) && AllDigits(d.fraction)
    && (d.whole[0] == '0' ==> d.whole == "0")
    && (d.fraction != [] ==> d.fraction[|d.fraction| - 1] != '0')
    && (d.negative ==> d.whole != "0" || d.fraction != [])
  }

  /** A path coordinate: a number whose printed form has no exponent. */
  type Number = d: Decimal | Canonical(d) witness Decimal(false, "0", "")

  function DigitValue(c: char): nat
    requires IsDigit(c)
  {
    (c as int) - ('0' as int)
  }

  /** The value of a string of integer digits. */
  function IntValue(s: string): nat
    requires AllDigits(s)
  {
    if s == [] then 0 else 10 * IntValue(s[..|s| - 1]) + DigitValue(s[|s| - 1])
  }

  /** The value of a string of fraction digits. */
  function FracValue(s: string): real
    requires AllDigits(s)
  {
    if s == [] then 0.0 else (DigitValue(s[0]) as real + FracValue(s[1..])) / 10.0
  }

  /** The numeric value a JavaScript number with this printed form has. */
  function Value(n: Decimal): real
    requires AllDigits(n.whole) && AllDigits(n.fraction)
  {
    var magnitude := IntValue(n.whole) as real + FracValue(n.fraction);
    if n.negative then -magnitude else magnitude
  }

  /** A number written out: a minus when negative, the integer digits, then a point and the fraction digits when there is a fraction. */
  function Text(negative: bool, whole: string, fraction: string): string
  {
    (if negative then "-" else "") + whole + (if fraction != [] then "." + fraction else "")
  }

  /** `num.toString()`. */
  function ToString(n: Number): (r: string)
    ensures |r| > 0
  {
    Text(n.negative, n.whole, n.fraction)
  }

  lemma {:induction false} FracValueBounds(s: string)
    requires AllDigits(s)
    ensures 0.0 <= FracValue(s) < 1.0
    ensures FracValue(s) == 0.0 <==> forall k :: 0 <= k < |s| ==> s[k] == '0'
  {
    if s != [] {
      FracValueBounds(s[1..]);
      assert forall k :: 1 <= k < |s| ==> s[k] == s[1..][k - 1];
    }
  }

  lemma {:induction false} IntValuePositive(s: string)
    requires AllDigits(s) && |s| > 0 && s[0] != '0'
    ensures IntValue(s) >= 1
  {
    if |s| > 1 {
      IntValuePositive(s[..|s| - 1]);
    }
  }

  /** A canonical fraction is non-zero exactly when it is non-empty (JavaScript's `x % 1 !== 0`). */
  lemma FractionNonZero(n: Number)
    ensures FracValue(n.fraction) != 0.0 <==> n.fraction != []
    ensures 0.0 <= FracValue(n.fraction) < 1.0
  {
    FracValueBounds(n.fraction);
    if n.fraction != [] {
      assert n.fraction[|n.fraction| - 1] != '0';
    }
  }

  /** The numbers strictly between 0 and 1 are those printed `0.` followed by digits. */
  lemma BetweenZeroAndOne(n: Number)
    ensures 0.0 < Value(n) < 1.0 <==> !n.negative && n.whole == "0" && n.fraction != []
    ensures -1.0 < Value(n) < 0.0 <==> n.negative && n.whole == "0"
    ensures Value(n) < 0.0 <==> n.negative
  {
    FractionNonZero(n);
    if n.whole != "0" {
      IntValuePositive(n.whole);
    } else {
      assert n.whole[..0] == [];
      assert IntValue(n.whole) == 0;
    }
  }

  /**
   * `removeLeadingZero(num)`: the printed number without the `0` before its
   * decimal point.  The range tests `0 < num < 1` and `-1 < num < 0` are
   * decided on the digits; RemoveLeadingZeroByValue shows that this is the
   * same function as the one that compares values.
   */
  function RemoveLeadingZero(n: Number): (r: string)
  {
    var s := ToString(n);
    if !n.negative && n.whole == "0" && n.fraction != [] && s[0] == '0' then s[1..]
    else if n.negative && n.whole == "0" && |s| > 1 && s[1] == '0' then [s[0]] + s[2..]
    else s
  }

  /** `removeLeadingZero` as written, with the range tests on the value. */
  lemma RemoveLeadingZeroByValue(n: Number)
    ensures RemoveLeadingZero(n) ==
            var s := ToString(n);
            if 0.0 < Value(n) < 1.0 && s[0] == '0' then s[1..]
            else if -1.0 < Value(n) < 0.0 && |s| > 1 && s[1] == '0' then [s[0]] + s[2..]
            else s
  {
    BetweenZeroAndOne(n);
  }

  /** The zero is dropped exactly for the numbers strictly between -1 and 1 other than 0. */
  lemma RemoveLeadingZeroShape(n: Number)
    ensures RemoveLeadingZero(n) == Text(n.negative, if n.whole == "0" && n.fraction != [] then "" else n.whole, n.fraction)
  {
    if n.whole == "0" && n.fraction != [] {
      var s := ToString(n);
      if n.negative {
        assert s == "-0." + n.fraction;
        assert [s[0]] + s[2..] == "-." + n.fraction;
      } else {
        assert s == "0." + n.fraction;
        assert s[1..] == "." + n.fraction;
      }
    }
  }

  // ---------------------------------------------------------------------------
  // Printing a row of numbers

  /** The options of `cleanupOutData` that it reads. */
  datatype Params = Params(noSpaceAfterFlags: bool, leadingZero: bool, negativeExtraSpace: bool)

  predicate IsArc(command: string) { command == "A" || command == "a" }

  /** How one number is printed: `removeLeadingZero(item)` or its plain string. */
  function Piece(n: Number, params: Params): (r: string)
    ensures |r| > 0
  {
    Text(n.negative, PrintedWhole(n, params), n.fraction)
  }

  /** The integer digits printed: none before the point of a fraction when leading zeros are dropped. */
  function PrintedWhole(n: Number, params: Params): string
  {
    if params.leadingZero && n.whole == "0" && n.fraction != [] then "" else n.whole
  }

  /**
   * The separator printed in front of item `i`, whose predecessor is `prev`
   * (None before the first item, where JavaScript's `prev` is undefined and
   * `prev % 1` is NaN).  `item < 0` is read off the sign and `prev % 1 !== 0`
   * off the fraction digits, which BetweenZeroAndOne and FractionNonZero show
   * to be the same tests on the values.
   */
  function Delimiter(i: nat, item: Number, prev: Option<Number>, params: Params, command: string): string
  {
    var byPosition := if i == 0 then "" else " ";
    var afterFlags := if params.noSpaceAfterFlags && IsArc(command) && (i % 7 == 4 || i % 7 == 5) then "" else byPosition;
    var text := Piece(item, params);
    if params.negativeExtraSpace && afterFlags != "" &&
       (item.negative || (text[0] == '.' && (prev.None? || prev.value.fraction != [])))
    then ""
    else afterFlags
  }

  function Prev(data: seq<Number>, i: nat): Option<Number>
    requires i <= |data|
  {
    if i == 0 then None else Some(data[i - 1])
  }

  /** Item `i` with the separator printed in front of it. */
  function Segment(data: seq<Number>, i: nat, params: Params, command: string): string
    requires i < |data|
  {
    Delimiter(i, data[i], Prev(data, i), params, command) + Piece(data[i], params)
  }

  /** The separated items of a row, in order. */
  function Segments(data: seq<Number>, params: Params, command: string): (r: seq<string>)
    ensures |r| == |data|
  {
    seq(|data|, k requires 0 <= k < |data| => Segment(data, k, params, command))
  }

  /** Strings appended left to right, as `cleanupOutData` appends them. */
  function Join(parts: seq<string>): string
  {
    if parts == [] then "" else Join(parts[..|parts| - 1]) + parts[|parts| - 1]
  }

  /** The string `cleanupOutData` returns. */
  function Row(data: seq<Number>, params: Params, command: string): string
  {
    Join(Segments(data, params, command))
  }

  lemma JoinSnoc(parts: seq<string>, i: nat)
    requires i < |parts|
    ensures Join(parts[..i + 1]) == Join(parts[..i]) + parts[i]
  {
    assert parts[..i + 1][..i] == parts[..i];
  }

  /** `cleanupOutData(data, params, command)`; an undefined `command` is the empty string. */
  method CleanupOutData(data: seq<Number>, params: Params, command: string) returns (str: string)
    ensures str == Row(data, params, command)
  {
    str := "";
    var prev: Option<Number> := None;
    var i := 0;
    while i < |data|
      invariant 0 <= i <= |data|
      invariant str == Join(Segments(data, params, command)[..i])
      invariant prev == Prev(data, i)
    {
      var segment := PrintItem(data, i, prev, params, command);
      JoinSnoc(Segments(data, params, command), i);
      assert Prev(data, i + 1) == Some(data[i]);
      prev := Some(data[i]);
      str := str + segment;
      i := i + 1;
    }
    assert Segments(data, params, command)[..i] == Segments(data, params, command);
  }

  /** One turn of the `cleanupOutData` loop: the separator for item `i`, then the item. */
  method PrintItem(data: seq<Number>, i: nat, prev: Option<Number>, params: Params, command: string) returns (segment: string)
    requires i < |data| && prev == Prev(data, i)
    ensures segment == Segment(data, i, params, command)
  {
    var item := data[i];
    var delimiter := " ";
    if i == 0 {
      delimiter := "";
    }
    if params.noSpaceAfterFlags && (command == "A" || command == "a") {
      var pos := i % 7;
      if pos == 4 || pos == 5 {
        delimiter := "";
      }
    }
    var text := if params.leadingZero then RemoveLeadingZero(item) else ToString(item);
    RemoveLeadingZeroShape(item);
    if params.negativeExtraSpace && delimiter != "" &&
       (item.negative || (text[0] == '.' && (prev.None? || prev.value.fraction != []))) {
      delimiter := "";
    }
    segment := delimiter + text;
  }

  /** The row of the documentation comment's example: 0, -1, .5, .5. */
  const ExampleData: seq<Number> :=
    [Decimal(false, "0", ""), Decimal(true, "1", ""), Decimal(false, "0", "5"), Decimal(false, "0", "5")]

  lemma ExamplePieces()
    ensures Piece(ExampleData[0], Params(false, true, true)) == "0"
    ensures Piece(ExampleData[1], Params(false, true, true)) == "-1"
    ensures Piece(ExampleData[2], Params(false, true, true)) == ".5"
    ensures Piece(ExampleData[3], Params(false, true, true)) == ".5"
  {
    assert Text(false, "0", "") == "0";
    assert Text(true, "1", "") == "-1";
    assert Text(false, "", "5") == ".5";
  }

  lemma ExampleSegments()
    ensures Segment(ExampleData, 0, Params(false, true, true), "") == "0"
    ensures Segment(ExampleData, 1, Params(false, true, true), "") == "-1"
    ensures Segment(ExampleData, 2, Params(false, true, true), "") == " .5"
    ensures Segment(ExampleData, 3, Params(false, true, true), "") == ".5"
  {
    ExamplePieces();
  }

  lemma ExampleSegmentList()
    ensures Segments(ExampleData, Params(false, true, true), "") == ["0", "-1", " .5", ".5"]
  {
    ExampleSegments();
  }

  /** With leading zeros dropped and no extra space, [0, -1, .5, .5] prints as "0-1 .5.5". */
  lemma RowExample()
    ensures Row(ExampleData, Params(false, true, true), "") == "0-1 .5.5"
  {
    ExampleSegmentList();
    JoinExample();
  }

  /** The example's segments appended left to right. */
  lemma JoinExample()
    ensures Join(["0", "-1", " .5", ".5"]) == "0-1 .5.5"
  {
    assert Join(["0"]) == "0" by {
      assert ["0"][..0] == [];
    }
    assert Join(["0", "-1"]) == "0-1" by {
      assert ["0", "-1"][..1] == ["0"];
    }
    assert Join(["0", "-1", " .5"]) == "0-1 .5" by {
      assert ["0", "-1", " .5"][..2] == ["0", "-1"];
    }
    assert ["0", "-1", " .5", ".5"][..3] == ["0", "-1", " .5"];
  }

  // ---------------------------------------------------------------------------
  // Reading a printed row back

  /** The end of the run of digits that starts at `i`. */
  function SkipDigits(s: string, i: nat): (r: nat)
    requires i <= |s|
    ensures i <= r <= |s|
    ensures forall k :: i <= k < r ==> IsDigit(s[k])
    ensures r < |s| ==> !IsDigit(s[r])
    decreases |s| - i
  {
    if i == |s| || !IsDigit(s[i]) then i else SkipDigits(s, i + 1)
  }

  lemma {:induction false} SkipDigitsTo(s: string, i: nat, j: nat)
    requires i <= j <= |s|
    requires forall k :: i <= k < j ==> IsDigit(s[k])
    requires j < |s| ==> !IsDigit(s[j])
    ensures SkipDigits(s, i) == j
    decreases j - i
  {
    if i < j {
      SkipDigitsTo(s, i + 1, j);
    }
  }

  /**
   * The length of the number at the start of `s` as a path-data reader takes
   * it: an optional minus, digits, and at most one decimal point followed by
   * digits.  A second decimal point or a minus starts the next number.
   */
  function ScanNumber(s: string): (r: nat)
    ensures r <= |s|
  {
    var a := if |s| > 0 && s[0] == '-' then 1 else 0;
    var b := SkipDigits(s, a);
    if b < |s| && s[b] == '.' then SkipDigits(s, b + 1) else b
  }

  /** The numbers of a row, split where a space stands or where the number being read cannot go on. */
  function Tokens(s: string): Option<seq<string>>
    decreases |s|
  {
    if s == [] then Some([])
    else if s[0] == ' ' then Tokens(s[1..])
    else
      var n := ScanNumber(s);
      if n == 0 then None
      else match Tokens(s[n..])
        case None => None
        case Some(rest) => Some([s[..n]] + rest)
  }

  /**
   * The sign and digits of the number at the start of `s` as a path-data
   * reader splits them: an optional minus, digits, and a decimal point with
   * digits; None when that is not a number.
   */
  function ReadDigits(s: string): (r: Option<Decimal>)
    ensures r.Some? ==> AllDigits(r.value.whole) && AllDigits(r.value.fraction)
  {
    var negative := |s| > 0 && s[0] == '-';
    ReadUnsigned(negative, if negative then s[1..] else s)
  }

  /** ReadDigits after the sign. */
  function ReadUnsigned(negative: bool, body: string): (r: Option<Decimal>)
    ensures r.Some? ==> AllDigits(r.value.whole) && AllDigits(r.value.fraction)
  {
    var b := SkipDigits(body, 0);
    assert AllDigits(body[..b]);
    if b == |body| then (if b > 0 then Some(Decimal(negative, body[..b], "")) else None)
    else if body[b] == '.' && AllDigits(body[b + 1..]) && (b > 0 || b + 1 < |body|)
    then Some(Decimal(negative, body[..b], body[b + 1..]))
    else None
  }

  /** The value of one number as the reader converts it; None when it is not a number. */
  function ParseNumber(s: string): Option<real>
  {
    match ReadDigits(s)
    case None => None
    case Some(d) => Some(Value(d))
  }

  /** A printed number: a sign, digits, and a decimal point with digits when there is a fraction. */
  predicate Printed(p: string, negative: bool, whole: string, fraction: string) {
    && AllDigits(whole) && AllDigits(fraction) && (whole != [] || fraction != [])
    && p == Text(negative, whole, fraction)
  }

  lemma PiecePrinted(n: Number, params: Params)
    ensures Printed(Piece(n, params), n.negative, PrintedWhole(n, params), n.fraction)
  {
  }

  /** Where a printed number ends when `t` follows it. */
  lemma ScanPrinted(p: string, negative: bool, whole: string, fraction: string, t: string)
    requires Printed(p, negative, whole, fraction)
    requires t == [] || t[0] == ' ' || t[0] == '-' || (t[0] == '.' && fraction != [])
    ensures ScanNumber(p + t) == |p|
  {
    var s := p + t;
    var a := if negative then 1 else 0;
    assert (|s| > 0 && s[0] == '-') == negative;
    assert s[a..a + |whole|] == whole;
    if fraction != [] {
      ScanFraction(s, a, p, whole, fraction, t);
    } else {
      assert a + |whole| == |p|;
      assert |p| < |s| ==> s[|p|] == t[0];
      RunOfDigits(s, a, whole);
    }
  }

  /** The fraction case of ScanPrinted. */
  lemma ScanFraction(s: string, a: nat, p: string, whole: string, fraction: string, t: string)
    requires AllDigits(whole) && AllDigits(fraction) && fraction != []
    requires s == p + t && a <= |p| && p == p[..a] + whole + "." + fraction
    requires s[a..a + |whole|] == whole
    requires t == [] || t[0] == ' ' || t[0] == '-' || t[0] == '.'
    ensures SkipDigits(s, a) == a + |whole| && s[a + |whole|] == '.'
    ensures SkipDigits(s, a + |whole| + 1) == |p|
  {
    var b := a + |whole|;
    assert s[b] == '.';
    RunOfDigits(s, a, whole);
    assert s[b + 1..|p|] == fraction;
    assert |p| < |s| ==> s[|p|] == t[0];
    RunOfDigits(s, b + 1, fraction);
  }

  /** The digits `w` standing at `a`, followed by something other than a digit. */
  lemma RunOfDigits(s: string, a: nat, w: string)
    requires AllDigits(w) && a + |w| <= |s| && s[a..a + |w|] == w
    requires a + |w| < |s| ==> !IsDigit(s[a + |w|])
    ensures SkipDigits(s, a) == a + |w|
  {
    assert forall k :: a <= k < a + |w| ==> s[k] == w[k - a];
    SkipDigitsTo(s, a, a + |w|);
  }

  /** A printed number reads back as its own sign and digits. */
  lemma ReadPrinted(p: string, negative: bool, whole: string, fraction: string)
    requires Printed(p, negative, whole, fraction)
    ensures ReadDigits(p) == Some(Decimal(negative, whole, fraction))
  {
    var body := Text(false, whole, fraction);
    if negative {
      assert p[1..] == body;
    } else {
      assert p == body;
      assert |p| > 0 ==> p[0] != '-';
    }
    ReadUnsignedPrinted(negative, body, whole, fraction);
  }

  lemma ReadUnsignedPrinted(negative: bool, body: string, whole: string, fraction: string)
    requires AllDigits(whole) && AllDigits(fraction) && (whole != [] || fraction != [])
    requires body == Text(false, whole, fraction)
    ensures ReadUnsigned(negative, body) == Some(Decimal(negative, whole, fraction))
  {
    assert body == whole + (if fraction != [] then "." + fraction else "");
    SkipDigitsTo(body, 0, |whole|);
    assert body[..|whole|] == whole;
    if fraction != [] {
      assert body[|whole| + 1..] == fraction;
    }
  }

  /** Dropping the zero before the point does not change the value. */
  lemma PrintedWholeValue(n: Number, params: Params)
    ensures AllDigits(PrintedWhole(n, params))
    ensures Value(Decimal(n.negative, PrintedWhole(n, params), n.fraction)) == Value(n)
  {
    if n.whole == "0" {
      assert n.whole[..0] == [];
      assert IntValue(n.whole) == 0;
    }
  }

  /** Each printed item reads back as the item's value. */
  lemma PieceParses(n: Number, params: Params)
    ensures ParseNumber(Piece(n, params)) == Some(Value(n))
  {
    PiecePrinted(n, params);
    ReadPrinted(Piece(n, params), n.negative, PrintedWhole(n, params), n.fraction);
    PrintedWholeValue(n, params);
  }


  /** The printed items, in order. */
  function Pieces(data: seq<Number>, params: Params): (r: seq<string>)
    ensures |r| == |data| && forall k :: 0 <= k < |data| ==> r[k] == Piece(data[k], params)
  {
    seq(|data|, k requires 0 <= k < |data| => Piece(data[k], params))
  }

  /** Strings appended right to left, from index `i` on. */
  function JoinFrom(parts: seq<string>, i: nat): string
    requires i <= |parts|
    decreases |parts| - i
  {
    if i == |parts| then "" else parts[i] + JoinFrom(parts, i + 1)
  }

  /** Appending left to right and right to left give the same string. */
  lemma {:induction false} JoinSplits(parts: seq<string>, i: nat)
    requires i <= |parts|
    ensures Join(parts[..i]) + JoinFrom(parts, i) == Join(parts)
    decreases |parts| - i
  {
    if i == |parts| {
      assert parts[..i] == parts;
    } else {
      JoinSplits(parts, i + 1);
      JoinSnoc(parts, i);
      var head := Join(parts[..i]);
      var rest := JoinFrom(parts, i + 1);
      assert head + (parts[i] + rest) == (head + parts[i]) + rest;
    }
  }

  /** The separator is dropped only where the next number cannot be read as part of the one before. */
  lemma DelimiterSafe(data: seq<Number>, i: nat, params: Params, command: string)
    requires 0 < i < |data|
    requires !(params.noSpaceAfterFlags && IsArc(command))
    ensures var d := Delimiter(i, data[i], Prev(data, i), params, command);
            var p := Piece(data[i], params);
            d == " " || (d == "" && (p[0] == '-' || (p[0] == '.' && data[i - 1].fraction != [])))
  {
    PiecePrinted(data[i], params);
  }

  lemma TokensCons(p: string, t: string)
    requires |p| > 0 && p[0] != ' ' && ScanNumber(p + t) == |p|
    ensures Tokens(p + t) == match Tokens(t) case None => None case Some(rest) => Some([p] + rest)
  {
    assert (p + t)[..|p|] == p && (p + t)[|p|..] == t;
  }

  lemma TokensSpace(t: string)
    ensures Tokens(" " + t) == Tokens(t)
  {
    assert (" " + t)[1..] == t;
  }

  lemma PieceStart(n: Number, params: Params)
    ensures Piece(n, params)[0] != ' '
  {
    PiecePrinted(n, params);
  }

  /** A printed number followed by a separator the reader accepts, and then the rest of the row. */
  lemma TokensAfterPiece(p: string, negative: bool, whole: string, fraction: string,
                         d: string, q: string, u: string, rest: seq<string>)
    requires Printed(p, negative, whole, fraction)
    requires |q| > 0 && q[0] != ' '
    requires d == " " || (d == "" && (q[0] == '-' || (q[0] == '.' && fraction != [])))
    requires Tokens(q + u) == Some(rest)
    ensures Tokens(p + ((d + q) + u)) == Some([p] + rest)
  {
    var t := (d + q) + u;
    if d == " " {
      assert t == " " + (q + u);
      assert t[0] == ' ';
      ScanPrinted(p, negative, whole, fraction, t);
      TokensCons(p, t);
      TokensSpace(q + u);
    } else {
      assert d + q == q;
      assert t[0] == q[0];
      ScanPrinted(p, negative, whole, fraction, t);
      TokensCons(p, t);
    }
  }

  /** The last printed number of a row. */
  lemma TokensLastPiece(p: string, negative: bool, whole: string, fraction: string)
    requires Printed(p, negative, whole, fraction)
    ensures Tokens(p + "") == Some([p])
  {
    ScanPrinted(p, negative, whole, fraction, "");
    TokensCons(p, "");
    assert Tokens("") == Some([]);
    assert [p] + [] == [p];
  }

  lemma SuffixCons(s: seq<string>, i: nat)
    requires i < |s|
    ensures s[i..] == [s[i]] + s[i + 1..]
  {
  }

  /** Item `i` opens the rest of the row from `i` on. */
  lemma RowFromStep(data: seq<Number>, i: nat, params: Params, command: string)
    requires i < |data|
    ensures JoinFrom(Segments(data, params, command), i) ==
            (Delimiter(i, data[i], Prev(data, i), params, command) + Piece(data[i], params)) +
            JoinFrom(Segments(data, params, command), i + 1)
  {
  }

  lemma {:induction false} RowFromTokens(data: seq<Number>, i: nat, params: Params, command: string)
    requires i < |data|
    requires !(params.noSpaceAfterFlags && IsArc(command))
    ensures Tokens(Piece(data[i], params) + JoinFrom(Segments(data, params, command), i + 1)) == Some(Pieces(data, params)[i..])
    decreases |data| - i
  {
    var segments := Segments(data, params, command);
    var p := Piece(data[i], params);
    var whole := PrintedWhole(data[i], params);
    PiecePrinted(data[i], params);
    if i + 1 == |data| {
      TokensLastPiece(p, data[i].negative, whole, data[i].fraction);
      assert Pieces(data, params)[i..] == [p];
    } else {
      RowFromTokens(data, i + 1, params, command);
      var d := Delimiter(i + 1, data[i + 1], Prev(data, i + 1), params, command);
      var q := Piece(data[i + 1], params);
      RowFromStep(data, i + 1, params, command);
      PieceStart(data[i + 1], params);
      DelimiterSafe(data, i + 1, params, command);
      TokensAfterPiece(p, data[i].negative, whole, data[i].fraction, d, q, JoinFrom(segments, i + 2), Pieces(data, params)[i + 1..]);
      SuffixCons(Pieces(data, params), i);
    }
  }

  /** Outside arc flags, the reader splits a printed row into exactly the printed items. */
  lemma RowTokens(data: seq<Number>, params: Params, command: string)
    requires !(params.noSpaceAfterFlags && IsArc(command))
    ensures Tokens(Row(data, params, command)) == Some(Pieces(data, params))
  {
    RowFromStart(data, params, command);
    if data != [] {
      RowFromFirst(data, params, command);
      RowFromTokens(data, 0, params, command);
      assert Pieces(data, params)[0..] == Pieces(data, params);
    }
  }

  /** The row is its segments appended right to left from the first. */
  lemma RowFromStart(data: seq<Number>, params: Params, command: string)
    ensures Row(data, params, command) == JoinFrom(Segments(data, params, command), 0)
  {
    var segments := Segments(data, params, command);
    JoinSplits(segments, 0);
    assert segments[..0] == [];
  }

  /** The first item is printed with no separator before it. */
  lemma RowFromFirst(data: seq<Number>, params: Params, command: string)
    requires data != []
    ensures JoinFrom(Segments(data, params, command), 0) ==
            Piece(data[0], params) + JoinFrom(Segments(data, params, command), 1)
  {
    RowFromStep(data, 0, params, command);
    assert Delimiter(0, data[0], Prev(data, 0), params, command) == "";
    assert "" + Piece(data[0], params) == Piece(data[0], params);
  }

  /**
   * Outside arc flags, a printed row reads back as the same numbers: the
   * reader splits it into exactly the printed items, and each converts to the
   * item's value.
   */
  lemma RowReadsBack(data: seq<Number>, params: Params, command: string)
    requires !(params.noSpaceAfterFlags && IsArc(command))
    ensures Tokens(Row(data, params, command)) == Some(Pieces(data, params))
    ensures forall k :: 0 <= k < |data| ==> ParseNumber(Pieces(data, params)[k]) == Some(Value(data[k]))
  {
    RowTokens(data, params, command);
    forall k | 0 <= k < |data| ensures ParseNumber(Pieces(data, params)[k]) == Some(Value(data[k])) {
      PieceParses(data[k], params);
    }
  }

}
