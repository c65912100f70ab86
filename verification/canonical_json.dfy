/**
 Canonical JSON (packages/mcp/src/research/canonical-json.ts, lines 13 to 36): the printer, and what a
 JSON value means once the order of an object's keys is forgotten.

 Texts are UTF-16 code units, numbers are integers. Strings are escaped as sections 7 and 8 of RFC 8259
 ask, lone surrogates included.
 */
module CanonicalJson {
  import opened Text16

  datatype Entry<V> = Entry(key: Text, value: V)

  /** A value as the program holds it: an object lists its own keys in some order. */
  datatype Json =
    | Null
    | Bool(b: bool)
    | Num(n: int)
    | Str(text: Text)
    | Arr(items: seq<Json>)
    | Obj(entries: seq<Entry<Json>>)

  ghost predicate DistinctKeys<V>(entries: seq<Entry<V>>) {
    forall i, j :: 0 <= i < j < |entries| ==> entries[i].key != entries[j].key
  }

  /** No object, however deep, has the same key twice. */
  ghost predicate WellFormed(v: Json) {
    match v
    case Arr(items) => forall i :: 0 <= i < |items| ==> WellFormed(items[i])
    case Obj(entries) => DistinctKeys(entries) && forall i :: 0 <= i < |entries| ==> WellFormed(entries[i].value)
    case _ => true
  }

  // ---------------------------------------------------------------- what a value means

  /** A JSON value with objects as finite maps: key order is gone. */
  datatype Meaning =
    | MNull
    | MBool(b: bool)
    | MNum(n: int)
    | MStr(text: Text)
    | MArr(items: seq<Meaning>)
    | MObj(members: map<Text, Meaning>)

  ghost function MeaningOf(v: Json): Meaning {
    match v
    case Null => MNull
    case Bool(b) => MBool(b)
    case Num(n) => MNum(n)
    case Str(text) => MStr(text)
    case Arr(items) => MArr(MeaningsOf(items))
    case Obj(entries) => MObj(MembersOf(entries))
  }

  ghost function MeaningsOf(items: seq<Json>): (meanings: seq<Meaning>)
    ensures |meanings| == |items|
    ensures forall i :: 0 <= i < |items| ==> meanings[i] == MeaningOf(items[i])
  {
    if items == [] then [] else [MeaningOf(items[0])] + MeaningsOf(items[1..])
  }

  ghost function MembersOf(entries: seq<Entry<Json>>): map<Text, Meaning> {
    if entries == [] then map[] else MembersOf(entries[1..])[entries[0].key := MeaningOf(entries[0].value)]
  }

  // ---------------------------------------------------------------- sorting keys

  /** `Array.prototype.sort` on strings: by UTF-16 code units. */
  predicate Before(a: Text, b: Text) {
    b != [] && (a == [] || a[0] < b[0] || (a[0] == b[0] && Before(a[1..], b[1..])))
  }

  function Insert<V>(e: Entry<V>, sorted: seq<Entry<V>>): (r: seq<Entry<V>>)
    ensures |r| == |sorted| + 1
  {
    if sorted == [] || Before(e.key, sorted[0].key) then [e] + sorted
    else [sorted[0]] + Insert(e, sorted[1..])
  }

  function SortByKey<V>(entries: seq<Entry<V>>): (r: seq<Entry<V>>)
    ensures |r| == |entries|
  {
    if entries == [] then [] else Insert(entries[0], SortByKey(entries[1..]))
  }

  // ---------------------------------------------------------------- printing

  const QUOTE: Unit := 34
  const COMMA: Unit := 44
  const MINUS: Unit := 45
  const OPEN_BRACKET: Unit := 91
  const BACKSLASH: Unit := 92
  const CLOSE_BRACKET: Unit := 93
  const OPEN_BRACE: Unit := 123
  const CLOSE_BRACE: Unit := 125
  const SEPARATOR: Text := [44, 32]
  const KEY_SEPARATOR: Text := [58, 32]

  function HexDigit(n: nat): Unit
    requires n < 16
  {
    if n < 10 then 48 + n else 87 + n
  }

  /** Four lower-case hex digits after a backslash and the letter u. */
  function Hex4(u: Unit): (r: Text)
    ensures |r| == 6
  {
    [BACKSLASH, 117, HexDigit(u / 4096), HexDigit(u / 256 % 16), HexDigit(u / 16 % 16), HexDigit(u % 16)]
  }

  /** One unit that is not part of a surrogate pair. */
  function EscapeUnit(u: Unit, ascii: bool): (r: Text)
    ensures 1 <= |r| <= 6
  {
    if u == QUOTE then [BACKSLASH, QUOTE]
    else if u == BACKSLASH then [BACKSLASH, BACKSLASH]
    else if u == 8 then [BACKSLASH, 98]
    else if u == 9 then [BACKSLASH, 116]
    else if u == 10 then [BACKSLASH, 110]
    else if u == 12 then [BACKSLASH, 102]
    else if u == 13 then [BACKSLASH, 114]
    else if u < 32 || High(u) || Low(u) || (ascii && u >= 127) then Hex4(u)
    else [u]
  }

  function Escape(text: Text, ascii: bool): Text
    decreases |text|
  {
    if text == [] then []
    else if !ascii && PairAt(text, 0) then [text[0], text[1]] + Escape(text[2..], ascii)
    else EscapeUnit(text[0], ascii) + Escape(text[1..], ascii)
  }

  function Quote(text: Text, ascii: bool): Text { [QUOTE] + Escape(text, ascii) + [QUOTE] }

  function Digits(n: nat): (r: Text)
    ensures |r| >= 1
    ensures forall i :: 0 <= i < |r| ==> 48 <= r[i] < 58
  {
    if n < 10 then [48 + n] else Digits(n / 10) + [48 + n % 10]
  }

  function Decimal(n: int): (r: Text)
    ensures |r| >= 1 && (r[0] == MINUS || 48 <= r[0] < 58)
  {
    if n < 0 then [MINUS] + Digits(-n) else Digits(n)
  }

  function Join(texts: seq<Text>): Text {
    if texts == [] then []
    else if |texts| == 1 then texts[0]
    else texts[0] + SEPARATOR + Join(texts[1..])
  }

  /** `canonicalJson` with the default separators: keys sorted or not, non-ASCII escaped or not. */
  function Render(v: Json, sorted: bool, ascii: bool): Text {
    match v
    case Null => [110, 117, 108, 108]
    case Bool(b) => if b then [116, 114, 117, 101] else [102, 97, 108, 115, 101]
    case Num(n) => Decimal(n)
    case Str(text) => Quote(text, ascii)
    case Arr(items) => [OPEN_BRACKET] + Join(RenderItems(items, sorted, ascii)) + [CLOSE_BRACKET]
    case Obj(entries) =>
      var members := RenderMembers(entries, sorted, ascii);
      [OPEN_BRACE] + Join(MemberTexts(if sorted then SortByKey(members) else members, ascii)) + [CLOSE_BRACE]
  }

  function RenderItems(items: seq<Json>, sorted: bool, ascii: bool): (texts: seq<Text>)
    ensures |texts| == |items|
  {
    if items == [] then [] else [Render(items[0], sorted, ascii)] + RenderItems(items[1..], sorted, ascii)
  }

  function RenderMembers(entries: seq<Entry<Json>>, sorted: bool, ascii: bool): (members: seq<Entry<Text>>)
    ensures |members| == |entries|
  {
    if entries == [] then []
    else [Entry(entries[0].key, Render(entries[0].value, sorted, ascii))] + RenderMembers(entries[1..], sorted, ascii)
  }

  function MemberTexts(members: seq<Entry<Text>>, ascii: bool): (texts: seq<Text>)
    ensures |texts| == |members|
  {
    if members == [] then []
    else [Quote(members[0].key, ascii) + KEY_SEPARATOR + members[0].value] + MemberTexts(members[1..], ascii)
  }

  /** Canonical form of a tool call (packages/mcp/src/research/actions.ts, lines 56 to 58). */
  function CallSignature(payload: Json): Text { Render(payload, true, false) }

  // ---------------------------------------------------------------- canonical values

  /** The same value with the keys of every object sorted. */
  function Canon(v: Json): Json {
    match v
    case Arr(items) => Arr(CanonItems(items))
    case Obj(entries) => Obj(SortByKey(CanonEntries(entries)))
    case _ => v
  }

  function CanonItems(items: seq<Json>): (r: seq<Json>)
    ensures |r| == |items|
  {
    if items == [] then [] else [Canon(items[0])] + CanonItems(items[1..])
  }

  function CanonEntries(entries: seq<Entry<Json>>): (r: seq<Entry<Json>>)
    ensures |r| == |entries|
    ensures forall i :: 0 <= i < |r| ==> r[i].key == entries[i].key
  {
    if entries == [] then [] else [Entry(entries[0].key, Canon(entries[0].value))] + CanonEntries(entries[1..])
  }
}
