/**
 The grammar of sections 2 to 5 of RFC 8259 as derivation trees: every way of writing a value,
 with its insignificant whitespace, its choice of escapes and its number tokens.
 */
module Grammar {
  import opened Numbers
  import opened NumberReader
  import opened Strings
  import opened Values

  predicate IsWs(c: char) {
    c == ' ' || c == TAB || c == LINE_FEED || c == CARRIAGE_RETURN
  }

  /** The four characters of insignificant whitespace. */
  lemma {:induction false} WhitespaceIs(c: char)
    ensures IsWs(c) <==> c as int in {0x20, 0x09, 0x0A, 0x0D}
  {
  }

  predicate IsBlank(s: string) {
    forall i | 0 <= i < |s| :: IsWs(s[i])
  }

  datatype Tree =
    | NullTree
    | BoolTree(b: bool)
    | NumberTree(token: NumberToken)
    | StringTree(chars: seq<StringItem>)
    | EmptyArray(blank: string)
    | ArrayTree(elements: seq<Element>)
    | EmptyObject(blank: string)
    | ObjectTree(entries: seq<Entry>)

  /** An array element between the whitespace around it. */
  datatype Element = Element(before: string, value: Tree, after: string)

  /** An object member with the whitespace around its name and around its value. */
  datatype Entry =
    Entry(before: string, name: seq<StringItem>, beforeColon: string, afterColon: string, value: Tree, after: string)

  // ---- The text of a derivation ---------------------------------------------------------

  function TreeText(t: Tree): string {
    match t
    case NullTree => "null"
    case BoolTree(b) => if b then "true" else "false"
    case NumberTree(token) => TokenText(token)
    case StringTree(chars) => QuotedText(chars)
    case EmptyArray(blank) => "[" + (blank + "]")
    case ArrayTree(elements) => "[" + ElementsText(elements)
    case EmptyObject(blank) => "{" + (blank + "}")
    case ObjectTree(entries) => "{" + EntriesText(entries)
  }

  /** Elements with the commas between them and the closing bracket. */
  function ElementsText(es: seq<Element>): string
    decreases es, 0
  {
    if es == [] then "]"
    else es[0].before + (TreeText(es[0].value) + (es[0].after + ElementsEnd(es[1..])))
  }

  function ElementsEnd(es: seq<Element>): string
    decreases es, 1
  {
    if es == [] then "]" else "," + ElementsText(es)
  }

  /** Members with the commas between them and the closing brace. */
  function EntriesText(es: seq<Entry>): string
    decreases es, 0
  {
    if es == [] then "}"
    else
      var e := es[0];
      var value := TreeText(e.value) + (e.after + EntriesEnd(es[1..]));
      e.before + (QuotedText(e.name) + (e.beforeColon + (":" + (e.afterColon + value))))
  }

  function EntriesEnd(es: seq<Entry>): string
    decreases es, 1
  {
    if es == [] then "}" else "," + EntriesText(es)
  }

  // ---- Well-formedness and meaning ------------------------------------------------------

  /** Lexically well-formed, every number token being accepted as a double. */
  predicate ValidTree(floats: Floats, t: Tree) {
    match t
    case NumberTree(token) => ValidToken(token) && AcceptNumber(floats, token).Ok?
    case StringTree(chars) => ValidItems(chars)
    case EmptyArray(blank) => IsBlank(blank)
    case ArrayTree(elements) => elements != [] && ValidElements(floats, elements)
    case EmptyObject(blank) => IsBlank(blank)
    case ObjectTree(entries) => entries != [] && ValidEntries(floats, entries)
    case _ => true
  }

  predicate ValidElements(floats: Floats, es: seq<Element>) {
    es != [] ==>
      && IsBlank(es[0].before) && ValidTree(floats, es[0].value) && IsBlank(es[0].after)
      && ValidElements(floats, es[1..])
  }

  predicate ValidEntries(floats: Floats, es: seq<Entry>) {
    es != [] ==>
      && IsBlank(es[0].before) && ValidItems(es[0].name)
      && IsBlank(es[0].beforeColon) && IsBlank(es[0].afterColon)
      && ValidTree(floats, es[0].value) && IsBlank(es[0].after)
      && ValidEntries(floats, es[1..])
  }

  /** The value a derivation stands for. */
  function Meaning(floats: Floats, t: Tree): JcsValue
    requires ValidTree(floats, t)
  {
    match t
    case NullTree => Null
    case BoolTree(b) => Bool(b)
    case NumberTree(token) => Number(AcceptNumber(floats, token).value)
    case StringTree(chars) => String(ItemsChars(chars))
    case EmptyArray(_) => Array([])
    case ArrayTree(elements) => Array(ElementsMeaning(floats, elements))
    case EmptyObject(_) => Object([])
    case ObjectTree(entries) => Object(EntriesMeaning(floats, entries))
  }

  function ElementsMeaning(floats: Floats, es: seq<Element>): seq<JcsValue>
    requires ValidElements(floats, es)
  {
    if es == [] then [] else [Meaning(floats, es[0].value)] + ElementsMeaning(floats, es[1..])
  }

  function EntriesMeaning(floats: Floats, es: seq<Entry>): seq<Member>
    requires ValidEntries(floats, es)
  {
    if es == [] then []
    else [Member(ItemsChars(es[0].name), Meaning(floats, es[0].value))] + EntriesMeaning(floats, es[1..])
  }

  /** A JSON text derives `v`: a value between blanks. */
  ghost predicate Derives(floats: Floats, text: string, v: JcsValue) {
    exists lead: string, t: Tree, trail: string ::
      && IsBlank(lead) && IsBlank(trail) && ValidTree(floats, t)
      && text == lead + (TreeText(t) + trail)
      && Meaning(floats, t) == v
  }
}
