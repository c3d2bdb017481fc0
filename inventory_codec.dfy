/**
 * The inventory codec: the list of previously applied object records is kept
 * as a JSON array in the namespace's inventory annotation, next to the
 * attached-class annotation. Encoding follows Go's encoding/json: fields in
 * declaration order (apiVersion, kind, name, namespace), no whitespace.
 * Strings escape the quote and the backslash, write \n, \r and \t short,
 * and write every other control character and <, >, &, U+2028 and U+2029 as
 * a \u escape, as Go releases before 1.22 do (from 1.22 on, \b and \f are
 * written short). The decoder accepts either form, and \/ and upper-case hex.
 */
module InventoryCodec {
  import opened Wrappers
  import opened Resources

  // ---------------------------------------------------------------------
  // Strings

  function HexDigit(d: nat): (c: char)
    requires d < 16
  {
    if d < 10 then ('0' as int + d) as char else ('a' as int + d - 10) as char
  }

  /** Four lower-case hex digits of a code point below 0x10000. */
  function Hex4(n: nat): (r: string)
    requires n < 0x10000
    ensures |r| == 4
  {
    [HexDigit(n / 16 / 16 / 16), HexDigit(n / 16 / 16 % 16), HexDigit(n / 16 % 16), HexDigit(n % 16)]
  }

  function HexValue(c: char): (r: Option<nat>)
    ensures r.Some? ==> r.value < 16
  {
    if '0' <= c <= '9' then Some(c as int - '0' as int)
    else if 'a' <= c <= 'f' then Some(c as int - 'a' as int + 10)
    else if 'A' <= c <= 'F' then Some(c as int - 'A' as int + 10)
    else None
  }

  function HexValue4(s: seq<char>): (r: Option<nat>)
    requires |s| == 4
    ensures r.Some? ==> r.value < 0x10000
  {
    var d0 :- HexValue(s[0]);
    var d1 :- HexValue(s[1]);
    var d2 :- HexValue(s[2]);
    var d3 :- HexValue(s[3]);
    Some(((d0 * 16 + d1) * 16 + d2) * 16 + d3)
  }

  lemma {:induction false} Hex4RoundTrip(n: nat)
    requires n < 0x10000
    ensures HexValue4(Hex4(n)) == Some(n)
  {
    var q1 := n / 16;
    var q2 := q1 / 16;
    var q3 := q2 / 16;
    assert n == q1 * 16 + n % 16;
    assert q1 == q2 * 16 + q1 % 16;
    assert q2 == q3 * 16 + q2 % 16;
    assert q3 < 16;
    var h := Hex4(n);
    assert HexValue(h[0]) == Some(q3);
    assert HexValue(h[1]) == Some(q2 % 16);
    assert HexValue(h[2]) == Some(q1 % 16);
    assert HexValue(h[3]) == Some(n % 16);
  }

  /** Characters json.Marshal writes as a \u escape. */
  predicate NeedsUnicodeEscape(c: char) {
    c < ' ' || c == '<' || c == '>' || c == '&' || c as int == 0x2028 || c as int == 0x2029
  }

  function Escape(c: char): (r: string)
    ensures r != []
    ensures r[0] != '"'
  {
    if c == '"' then "\\\""
    else if c == '\\' then "\\\\"
    else if c == '\n' then "\\n"
    else if c == '\r' then "\\r"
    else if c == '\t' then "\\t"
    else if NeedsUnicodeEscape(c) then "\\u" + Hex4(c as int)
    else [c]
  }

  function EscapeAll(s: string): string {
    if s == [] then [] else Escape(s[0]) + EscapeAll(s[1..])
  }

  function Quote(s: string): string {
    "\"" + EscapeAll(s) + "\""
  }

  /**
   * Decodes the escape sequence that follows a backslash: the character and
   * how many input characters it took. Lone surrogate escapes are refused.
   */
  function Unescape(s: seq<char>): (r: Option<(char, nat)>)
    ensures r.Some? ==> 1 <= r.value.1 <= |s|
  {
    if |s| == 0 then None
    else if s[0] == '"' || s[0] == '\\' || s[0] == '/' then Some((s[0], 1))
    else if s[0] == 'b' then Some((8 as char, 1))
    else if s[0] == 'f' then Some((12 as char, 1))
    else if s[0] == 'n' then Some(('\n', 1))
    else if s[0] == 'r' then Some(('\r', 1))
    else if s[0] == 't' then Some(('\t', 1))
    else if s[0] == 'u' && |s| >= 5 then
      match HexValue4(s[1..5])
      case None => None
      case Some(v) => if 0xD800 <= v < 0xE000 then None else Some((v as char, 5))
    else None
  }

  /**
   * Reads the characters of a JSON string up to and including its closing
   * quote; returns the decoded string and the input after the quote.
   */
  function ParseStringBody(s: seq<char>): (r: Option<(string, seq<char>)>)
    ensures r.Some? ==> |r.value.1| < |s|
    decreases |s|
  {
    if |s| == 0 then None
    else if s[0] == '"' then Some(([], s[1..]))
    else if s[0] == '\\' then
      match Unescape(s[1..])
      case None => None
      case Some((c, n)) =>
        match ParseStringBody(s[1 + n..])
        case None => None
        case Some((t, rest)) => Some(([c] + t, rest))
    else if s[0] < ' ' then None
    else
      match ParseStringBody(s[1..])
      case None => None
      case Some((t, rest)) => Some(([s[0]] + t, rest))
  }

  function ParseString(s: seq<char>): (r: Option<(string, seq<char>)>)
    ensures r.Some? ==> |r.value.1| < |s|
  {
    if |s| > 0 && s[0] == '"' then ParseStringBody(s[1..]) else None
  }

  /** What ParseStringBody gives for the input after one decoded character. */
  function Cons(c: char, r: Option<(string, seq<char>)>): Option<(string, seq<char>)> {
    match r
    case None => None
    case Some((t, rest)) => Some(([c] + t, rest))
  }

  lemma ShortEscapeRoundTrip(c: char, tail: seq<char>)
    requires c == '"' || c == '\\' || c == '\n' || c == '\r' || c == '\t'
    ensures ParseStringBody(Escape(c) + tail) == Cons(c, ParseStringBody(tail))
  {
    var s := Escape(c) + tail;
    assert |Escape(c)| == 2 && s[0] == '\\';
    assert Unescape(s[1..]) == Some((c, 1));
    assert s[1 + 1..] == tail;
  }

  lemma UnicodeEscapeRoundTrip(c: char, tail: seq<char>)
    requires NeedsUnicodeEscape(c) && c != '\n' && c != '\r' && c != '\t'
    ensures ParseStringBody(Escape(c) + tail) == Cons(c, ParseStringBody(tail))
  {
    var h := Hex4(c as int);
    var s := Escape(c) + tail;
    assert Escape(c) == "\\u" + h;
    assert s == ['\\', 'u'] + h + tail;
    assert s[1..] == ['u'] + h + tail;
    assert s[1..][1..5] == h;
    Hex4RoundTrip(c as int);
    assert Unescape(s[1..]) == Some((c, 5));
    assert s[1 + 5..] == tail;
  }

  lemma EscapeCharRoundTrip(c: char, tail: seq<char>)
    ensures ParseStringBody(Escape(c) + tail) == Cons(c, ParseStringBody(tail))
  {
    if c == '"' || c == '\\' || c == '\n' || c == '\r' || c == '\t' {
      ShortEscapeRoundTrip(c, tail);
    } else if NeedsUnicodeEscape(c) {
      UnicodeEscapeRoundTrip(c, tail);
    } else {
      var s := Escape(c) + tail;
      assert Escape(c) == [c];
      assert s[0] == c && s[1..] == tail;
    }
  }

  lemma {:induction false} EscapeAllRoundTrip(x: string, rest: seq<char>)
    ensures ParseStringBody(EscapeAll(x) + "\"" + rest) == Some((x, rest))
  {
    if x == [] {
      assert EscapeAll(x) + "\"" + rest == ['"'] + rest;
    } else {
      EscapeAllRoundTrip(x[1..], rest);
      assert EscapeAll(x) + "\"" + rest == Escape(x[0]) + (EscapeAll(x[1..]) + "\"" + rest);
      EscapeCharRoundTrip(x[0], EscapeAll(x[1..]) + "\"" + rest);
      assert [x[0]] + x[1..] == x;
    }
  }

  lemma QuoteRoundTrip(x: string, rest: seq<char>)
    ensures ParseString(Quote(x) + rest) == Some((x, rest))
  {
    assert Quote(x) + rest == ['"'] + (EscapeAll(x) + "\"" + rest);
    EscapeAllRoundTrip(x, rest);
  }

  // ---------------------------------------------------------------------
  // Records and arrays

  /** Consumes the literal `lit` at the front of `s`. */
  function Expect(lit: string, s: seq<char>): (r: Option<seq<char>>)
    ensures r.Some? ==> |r.value| == |s| - |lit|
  {
    if lit <= s then Some(s[|lit|..]) else None
  }

  function ParseField(lit: string, s: seq<char>): (r: Option<(string, seq<char>)>)
    ensures r.Some? ==> |r.value.1| < |s|
  {
    var s1 :- Expect(lit, s);
    ParseString(s1)
  }

  lemma FieldRoundTrip(lit: string, x: string, rest: seq<char>)
    ensures ParseField(lit, lit + (Quote(x) + rest)) == Some((x, rest))
  {
    var s := lit + (Quote(x) + rest);
    assert lit <= s;
    assert s[|lit|..] == Quote(x) + rest;
    QuoteRoundTrip(x, rest);
  }

  const ApiVersionField := "{\"apiVersion\":"
  const KindField := ",\"kind\":"
  const NameField := ",\"name\":"
  const NamespaceField := ",\"namespace\":"

  /** The JSON object of one record, followed by `tail`. */
  function EncodeItemThen(r: ObjRef, tail: string): (s: string)
    ensures s != [] && s[0] == '{'
  {
    ApiVersionField + (Quote(r.apiVersion) + (KindField + (Quote(r.kind) + (NameField + (Quote(r.name)
      + (NamespaceField + (Quote(r.namespace) + ("}" + tail))))))))
  }

  function ParseItem(s: seq<char>): (r: Option<(ObjRef, seq<char>)>)
    ensures r.Some? ==> |r.value.1| < |s|
  {
    var a :- ParseField(ApiVersionField, s);
    var k :- ParseField(KindField, a.1);
    var n :- ParseField(NameField, k.1);
    var ns :- ParseField(NamespaceField, n.1);
    var rest :- Expect("}", ns.1);
    Some((ObjRef(a.0, k.0, ns.0, n.0), rest))
  }

  lemma ItemRoundTrip(r: ObjRef, rest: string)
    ensures ParseItem(EncodeItemThen(r, rest)) == Some((r, rest))
  {
    var t4 := "}" + rest;
    var t3 := NamespaceField + (Quote(r.namespace) + t4);
    var t2 := NameField + (Quote(r.name) + t3);
    var t1 := KindField + (Quote(r.kind) + t2);
    FieldRoundTrip(ApiVersionField, r.apiVersion, t1);
    FieldRoundTrip(KindField, r.kind, t2);
    FieldRoundTrip(NameField, r.name, t3);
    FieldRoundTrip(NamespaceField, r.namespace, t4);
    assert "}" <= t4 && t4[1..] == rest;
  }

  /** The elements of a non-empty array and its closing bracket. */
  function EncodeElements(items: seq<ObjRef>): (s: string)
    requires items != []
    ensures s != [] && s[0] == '{'
  {
    if |items| == 1 then EncodeItemThen(items[0], "]")
    else EncodeItemThen(items[0], "," + EncodeElements(items[1..]))
  }

  function ParseElements(s: seq<char>): Option<seq<ObjRef>>
    decreases |s|
  {
    match ParseItem(s)
    case None => None
    case Some((item, rest)) =>
      if rest == "]" then Some([item])
      else if |rest| > 0 && rest[0] == ',' then
        match ParseElements(rest[1..])
        case None => None
        case Some(items) => Some([item] + items)
      else None
  }

  /** What json.Marshal writes for a slice of inventory records. */
  function Encode(items: seq<ObjRef>): string {
    if items == [] then "[]" else "[" + EncodeElements(items)
  }

  /**
   * Decodes an inventory array; `null` is the nil slice. Anything else that
   * is not the layout Encode writes is malformed.
   */
  function Decode(s: string): Option<seq<ObjRef>> {
    if s == "null" || s == "[]" then Some([])
    else if |s| > 0 && s[0] == '[' then ParseElements(s[1..])
    else None
  }

  lemma ElementsStep(r: ObjRef, tail: string)
    ensures ParseElements(EncodeItemThen(r, tail)) ==
      if tail == "]" then Some([r])
      else if |tail| > 0 && tail[0] == ',' then
        match ParseElements(tail[1..])
        case None => None
        case Some(items) => Some([r] + items)
      else None
  {
    ItemRoundTrip(r, tail);
  }

  /** A one-record array parses back to that record. */
  lemma ElementsOne(items: seq<ObjRef>)
    requires |items| == 1
    ensures ParseElements(EncodeElements(items)) == Some(items)
  {
    assert EncodeElements(items) == EncodeItemThen(items[0], "]");
    ElementsStep(items[0], "]");
    assert items == [items[0]];
  }

  lemma HeadTail<T>(xs: seq<T>)
    requires xs != []
    ensures [xs[0]] + xs[1..] == xs
  {
  }

  /** One more record in front of a parsable element list. */
  lemma ElementsPrefix(r: ObjRef, more: string, xs: seq<ObjRef>)
    requires more != [] && more[0] == '{'
    requires ParseElements(more) == Some(xs)
    ensures ParseElements(EncodeItemThen(r, "," + more)) == Some([r] + xs)
  {
    var tail := "," + more;
    ElementsStep(r, tail);
    assert tail[1..] == more;
    assert tail != "]" by { assert tail[1] == '{'; }
  }

  /** The encoding of two or more records: the first, a comma, the rest. */
  lemma EncodeElementsUnfold(items: seq<ObjRef>)
    requires |items| > 1
    ensures EncodeElements(items) == EncodeItemThen(items[0], "," + EncodeElements(items[1..]))
  {
  }

  lemma {:induction false} ElementsRoundTrip(items: seq<ObjRef>)
    requires items != []
    ensures ParseElements(EncodeElements(items)) == Some(items)
  {
    if |items| == 1 {
      ElementsOne(items);
    } else {
      ElementsRoundTrip(items[1..]);
      EncodeElementsUnfold(items);
      ElementsPrefix(items[0], EncodeElements(items[1..]), items[1..]);
      HeadTail(items);
    }
  }

  /** Decoding what the encoder writes gives back the same list, in order. */
  lemma DecodeEncode(items: seq<ObjRef>)
    ensures Decode(Encode(items)) == Some(items)
  {
    if items != [] {
      var s := Encode(items);
      ElementsRoundTrip(items);
      assert s[1..] == EncodeElements(items);
      assert s != "null" && s != "[]" by { assert s[0] == '[' && s[1] == '{'; }
    }
  }

  // ---------------------------------------------------------------------
  // Annotations

  /**
   * Reads the inventory from the namespace's annotations. A missing key or
   * an empty value is the empty inventory; content that does not decode is
   * an error.
   */
  function GetInventory(ann: map<string, string>): (r: Result<seq<ObjRef>, Error>)
    ensures InventoryAnnotation !in ann ==> r == Success([])
    ensures InventoryAnnotation in ann && ann[InventoryAnnotation] == "" ==> r == Success([])
    ensures r.Failure? ==> r.error == InventoryMalformed
    ensures InventoryAnnotation in ann && ann[InventoryAnnotation] != "" ==>
      && (r.Failure? <==> Decode(ann[InventoryAnnotation]).None?)
      && (r.Success? ==> Decode(ann[InventoryAnnotation]) == Some(r.value))
  {
    if InventoryAnnotation !in ann || ann[InventoryAnnotation] == "" then Success([])
    else
      match Decode(ann[InventoryAnnotation])
      case None => Failure(InventoryMalformed)
      case Some(items) => Success(items)
  }

  /**
   * The annotations after persisting `items` for `className`: for a
   * non-empty list both annotations are written; for an empty one both
   * keys are removed. No other annotation changes.
   */
  function WithInventory(ann: map<string, string>, className: string, items: seq<ObjRef>): (r: map<string, string>)
    ensures forall k :: k != InventoryAnnotation && k != AttachedClassAnnotation ==>
      (k in r <==> k in ann) && (k in r ==> r[k] == ann[k])
    ensures items == [] ==> InventoryAnnotation !in r && AttachedClassAnnotation !in r
    ensures items != [] ==> AttachedClassAnnotation in r && r[AttachedClassAnnotation] == className
  {
    if items == [] then ann - {InventoryAnnotation, AttachedClassAnnotation}
    else ann[InventoryAnnotation := Encode(items)][AttachedClassAnnotation := className]
  }

  /** Reading back what was persisted yields the persisted list. */
  lemma InventoryRoundTrip(ann: map<string, string>, className: string, items: seq<ObjRef>)
    ensures GetInventory(WithInventory(ann, className, items)) == Success(items)
  {
    if items != [] {
      DecodeEncode(items);
    }
  }

  /** Writing the same inventory twice is the same as writing it once. */
  lemma WithInventoryIdempotent(ann: map<string, string>, className: string, items: seq<ObjRef>)
    ensures WithInventory(WithInventory(ann, className, items), className, items) == WithInventory(ann, className, items)
  {
  }
}
