/** `extract_gpt5_text`: picks the assistant's text out of a decoded reply of
    the text-generation service. The reply is a dict whose "output" is a list
    of blocks; a block of type "message" holds a "content" list whose items of
    type "output_text" carry the "text". The function never raises: every
    failure becomes one of four fixed strings or an "Error parsing response: "
    string. The three driver scripts carry identical copies of it. */
module Response {
  import opened PyStr
  import opened Wrappers

  /** A decoded JSON value as Python holds it (numbers are taken to be
      integers). A dict is kept as its entries in insertion order. */
  datatype Json =
    | JNone
    | JBool(b: bool)
    | JInt(i: int)
    | JStr(s: string)
    | JList(items: seq<Json>)
    | JDict(entries: seq<Entry>)

  datatype Entry = Entry(key: string, value: Json)

  /** Python truthiness (`bool(x)`). */
  predicate Truthy(j: Json) {
    match j
    case JNone => false
    case JBool(b) => b
    case JInt(i) => i != 0
    case JStr(s) => |s| > 0
    case JList(items) => |items| > 0
    case JDict(entries) => |entries| > 0
  }

  /** The name Python gives the type of the value, as it appears in messages. */
  function TypeName(j: Json): (r: string)
    ensures |r| > 0 && forall i :: 0 <= i < |r| ==> 'a' <= r[i] <= 'z' || 'A' <= r[i] <= 'Z'
  {
    match j
    case JNone => "NoneType"
    case JBool(_) => "bool"
    case JInt(_) => "int"
    case JStr(_) => "str"
    case JList(_) => "list"
    case JDict(_) => "dict"
  }

  /** Two values get the same type name exactly when they are of the same kind. */
  lemma TypeNameDistinct(a: Json, b: Json)
    ensures TypeName(a) == TypeName(b) <==>
      (a.JNone? && b.JNone?) || (a.JBool? && b.JBool?) || (a.JInt? && b.JInt?)
      || (a.JStr? && b.JStr?) || (a.JList? && b.JList?) || (a.JDict? && b.JDict?)
  {
  }

  predicate HasKey(entries: seq<Entry>, key: string) {
    exists k :: 0 <= k < |entries| && entries[k].key == key
  }

  /** `d[key]` on a dict, as an option. */
  function Lookup(entries: seq<Entry>, key: string): (r: Option<Json>)
    ensures r.Some? <==> HasKey(entries, key)
  {
    if |entries| == 0 then None
    else if entries[0].key == key then Some(entries[0].value)
    else
      assert forall k :: 1 <= k < |entries| ==> entries[k] == entries[1..][k - 1];
      Lookup(entries[1..], key)
  }

  /** The value found is the one stored under the first entry with that key. */
  lemma {:induction false} LookupFirst(entries: seq<Entry>, key: string, k: nat)
    requires k < |entries| && entries[k].key == key
    requires forall j :: 0 <= j < k ==> entries[j].key != key
    ensures Lookup(entries, key) == Some(entries[k].value)
  {
    if k > 0 {
      assert entries[1..][k - 1] == entries[k];
      LookupFirst(entries[1..], key, k - 1);
    }
  }

  /** `d.get(key)` on a dict: the value, or None when the key is missing. */
  function Get(entries: seq<Entry>, key: string): (r: Json)
    ensures HasKey(entries, key) ==> Lookup(entries, key) == Some(r)
    ensures !HasKey(entries, key) ==> r == JNone
  {
    match Lookup(entries, key)
    case Some(v) => v
    case None => JNone
  }

  // ------------------------------------------------------------- exceptions

  /** The exceptions the body of `extract_gpt5_text` can raise. */
  datatype PyError =
    | NotContainer(typeName: string)              // `"output" in x`
    | NotSubscriptable(typeName: string)          // `x["key"]`
    | BadIndex(typeName: string)                  // `aList["key"]`, `aStr["key"]`
    | MissingKey(key: string)                     // KeyError
    | NotIterable(typeName: string)               // `for b in x`
    | NoAttribute(typeName: string, attr: string) // `x.get`, `x.strip`

  /** `str(e)` for each exception. */
  function Message(e: PyError): string {
    match e
    case NotContainer(t) => "argument of type '" + t + "' is not iterable"
    case NotSubscriptable(t) => "'" + t + "' object is not subscriptable"
    case BadIndex(t) =>
      if t == "str" then "string indices must be integers, not 'str'"
      else t + " indices must be integers or slices, not str"
    case MissingKey(k) => "'" + k + "'"
    case NotIterable(t) => "'" + t + "' object is not iterable"
    case NoAttribute(t, a) => "'" + t + "' object has no attribute '" + a + "'"
  }

  /** A step that either yields a value or raises. */
  datatype Outcome<T> = Ok(value: T) | Err(error: PyError)

  /** `key in x`. */
  function In(key: string, x: Json): Outcome<bool> {
    match x
    case JDict(entries) => Ok(HasKey(entries, key))
    case JList(items) => Ok(JStr(key) in items)
    case JStr(s) => Ok(Contains(s, key))
    case _ => Err(NotContainer(TypeName(x)))
  }

  /** `x[key]` with a string key. */
  function Subscript(x: Json, key: string): (r: Outcome<Json>)
    ensures r.Ok? <==> x.JDict? && HasKey(x.entries, key)
  {
    match x
    case JDict(entries) =>
      (match Lookup(entries, key) case Some(v) => Ok(v) case None => Err(MissingKey(key)))
    case JList(_) => Err(BadIndex("list"))
    case JStr(_) => Err(BadIndex("str"))
    case _ => Err(NotSubscriptable(TypeName(x)))
  }

  /** The elements `for e in x` visits: list items, dict keys, or the
      one-character strings of a string. */
  function Iterate(x: Json): Outcome<seq<Json>> {
    match x
    case JList(items) => Ok(items)
    case JDict(entries) => Ok(seq(|entries|, k requires 0 <= k < |entries| => JStr(entries[k].key)))
    case JStr(s) => Ok(seq(|s|, k requires 0 <= k < |s| => JStr([s[k]])))
    case _ => Err(NotIterable(TypeName(x)))
  }

  // ------------------------------------------------------------ the filters

  /** Which of the two list comprehensions is meant. */
  datatype Wanted = MessageBlocks | OutputTexts

  /** The comprehension's condition, for a dict element. */
  predicate Keeps(w: Wanted, b: Json) {
    b.JDict? &&
    match w
    case MessageBlocks => Get(b.entries, "type") == JStr("message") && Truthy(Get(b.entries, "content"))
    case OutputTexts => Get(b.entries, "type") == JStr("output_text")
  }

  /** `[b for b in items if <condition on b.get(...)>]`: keeps the elements
      whose condition holds, in order, and raises on the first element that is
      not a dict (it has no `get`). */
  function Select(items: seq<Json>, w: Wanted): (r: Outcome<seq<Json>>)
    ensures r.Ok? ==> |r.value| <= |items|
  {
    if |items| == 0 then Ok([])
    else if !items[0].JDict? then Err(NoAttribute(TypeName(items[0]), "get"))
    else
      match Select(items[1..], w)
      case Err(e) => Err(e)
      case Ok(rest) => Ok(if Keeps(w, items[0]) then [items[0]] + rest else rest)
  }

  predicate AllDicts(items: seq<Json>) {
    forall k :: 0 <= k < |items| ==> items[k].JDict?
  }

  /** Everything the comprehension keeps meets its condition. */
  lemma {:induction false} SelectKeeps(items: seq<Json>, w: Wanted)
    requires Select(items, w).Ok?
    ensures forall k :: 0 <= k < |Select(items, w).value| ==> Keeps(w, Select(items, w).value[k])
  {
    if |items| > 0 {
      SelectKeeps(items[1..], w);
    }
  }

  /** Over dicts, the comprehension does not raise, and it is empty exactly
      when no element meets the condition. */
  lemma {:induction false} SelectEmpty(items: seq<Json>, w: Wanted)
    requires AllDicts(items)
    ensures Select(items, w).Ok?
    ensures Select(items, w).value == [] <==> forall k :: 0 <= k < |items| ==> !Keeps(w, items[k])
  {
    if |items| > 0 {
      SelectEmpty(items[1..], w);
      assert forall k :: 1 <= k < |items| ==> items[k] == items[1..][k - 1];
    }
  }

  /** Over dicts, the first element the comprehension keeps is the first
      element that meets the condition. */
  lemma {:induction false} SelectFirst(items: seq<Json>, w: Wanted, i: nat)
    requires AllDicts(items) && i < |items| && Keeps(w, items[i])
    requires forall k :: 0 <= k < i ==> !Keeps(w, items[k])
    ensures Select(items, w).Ok? && |Select(items, w).value| > 0
    ensures Select(items, w).value[0] == items[i]
  {
    SelectEmpty(items, w);
    if i > 0 {
      assert forall k :: 0 <= k < |items| - 1 ==> items[1..][k] == items[k + 1];
      SelectFirst(items[1..], w, i - 1);
    }
  }

  /** An element that is not a dict raises as soon as the comprehension
      reaches it, even after elements that were kept. */
  lemma {:induction false} SelectRaises(items: seq<Json>, w: Wanted, i: nat)
    requires i < |items| && !items[i].JDict?
    requires forall k :: 0 <= k < i ==> items[k].JDict?
    ensures Select(items, w) == Err(NoAttribute(TypeName(items[i]), "get"))
  {
    if i > 0 {
      assert forall k :: 0 <= k < |items| - 1 ==> items[1..][k] == items[k + 1];
      SelectRaises(items[1..], w, i - 1);
    }
  }

  // -------------------------------------------------------- the extraction

  /** What `extract_gpt5_text` returns: the text, one of the three fixed
      failure answers, or the exception it caught. */
  datatype Extracted =
    | Text(text: string)
    | InvalidFormat
    | NoMessageBlock
    | NoOutputText
    | ParseError(error: PyError)

  /** The string the Python function returns for each answer. */
  function Render(x: Extracted): string {
    match x
    case Text(t) => t
    case InvalidFormat => "Invalid response format."
    case NoMessageBlock => "No message block found in response."
    case NoOutputText => "No output_text found in response."
    case ParseError(e) => "Error parsing response: " + Message(e)
  }

  /** `extract_gpt5_text(result)`, step by step; each step that can raise
      turns into `ParseError`. */
  function ExtractText(result: Json): (r: Extracted)
    ensures r.Text? ==> Trimmed(r.text)
  {
    if !Truthy(result) then InvalidFormat
    else
      match In("output", result)
      case Err(e) => ParseError(e)
      case Ok(found) =>
        if !found then InvalidFormat
        else
          match Subscript(result, "output")
          case Err(e) => ParseError(e)
          case Ok(output) =>
            match Iterate(output)
            case Err(e) => ParseError(e)
            case Ok(items) =>
              match Select(items, MessageBlocks)
              case Err(e) => ParseError(e)
              case Ok(blocks) =>
                if |blocks| == 0 then NoMessageBlock
                else FirstOutputText(blocks[0])
  }

  /** The part of `extract_gpt5_text` that looks inside the first message block. */
  function FirstOutputText(block: Json): (r: Extracted)
    ensures r.Text? ==> Trimmed(r.text)
    ensures r != InvalidFormat && r != NoMessageBlock
  {
    match Subscript(block, "content")
    case Err(e) => ParseError(e)
    case Ok(content) =>
      match Iterate(content)
      case Err(e) => ParseError(e)
      case Ok(parts) =>
        match Select(parts, OutputTexts)
        case Err(e) => ParseError(e)
        case Ok(texts) =>
          if |texts| == 0 then NoOutputText
          else
            match Subscript(texts[0], "text")
            case Err(e) => ParseError(e)
            case Ok(JStr(s)) => Text(Strip(s))
            case Ok(other) => ParseError(NoAttribute(TypeName(other), "strip"))
  }

  // ------------------------------------------------------------ properties

  /** A falsy result, and a dict without an "output" key, give "Invalid
      response format."; for a dict nothing else does. */
  lemma ExtractInvalidFormat(result: Json)
    ensures !Truthy(result) ==> ExtractText(result) == InvalidFormat
    ensures result.JDict? ==>
      (ExtractText(result) == InvalidFormat <==> !HasKey(result.entries, "output"))
  {
    if result.JDict? && HasKey(result.entries, "output") {
      assert Truthy(result);
      FirstOutputTextNotInvalid(result);
    }
  }

  lemma FirstOutputTextNotInvalid(result: Json)
    ensures ExtractText(result) == InvalidFormat ==>
      !Truthy(result) || In("output", result) == Ok(false)
  {
  }

  /** The reply's "output" is the list `items` of dicts. */
  predicate OutputIs(result: Json, items: seq<Json>) {
    result.JDict? && Lookup(result.entries, "output") == Some(JList(items)) && AllDicts(items)
  }

  /** Block `i` is the first message block: a dict of type "message" with
      truthy content, and no earlier block is one. */
  predicate FirstKept(items: seq<Json>, w: Wanted, i: nat) {
    i < |items| && Keeps(w, items[i]) && forall k :: 0 <= k < i ==> !Keeps(w, items[k])
  }

  /** "No message block found in response." exactly when no output item
      is a dict of type "message" with truthy content. */
  lemma ExtractNoMessageBlock(result: Json, items: seq<Json>)
    requires OutputIs(result, items)
    ensures ExtractText(result) == NoMessageBlock <==>
      forall k :: 0 <= k < |items| ==> !Keeps(MessageBlocks, items[k])
  {
    assert HasKey(result.entries, "output");
    SelectEmpty(items, MessageBlocks);
  }

  /** Only the first message block is inspected: with its content a list of
      dicts, the answer is "No output_text found in response." exactly when
      none of them has type "output_text", whatever later blocks hold. */
  lemma ExtractNoOutputText(result: Json, items: seq<Json>, i: nat, parts: seq<Json>)
    requires OutputIs(result, items) && FirstKept(items, MessageBlocks, i)
    requires Lookup(items[i].entries, "content") == Some(JList(parts)) && AllDicts(parts)
    ensures ExtractText(result) == NoOutputText <==>
      forall j :: 0 <= j < |parts| ==> !Keeps(OutputTexts, parts[j])
  {
    assert HasKey(result.entries, "output");
    SelectFirst(items, MessageBlocks, i);
    SelectEmpty(parts, OutputTexts);
    FirstBlockAnswer(result, items, i);
  }

  /** With an output list of dicts, the answer is read off the first
      message block. */
  lemma FirstBlockAnswer(result: Json, items: seq<Json>, i: nat)
    requires OutputIs(result, items) && FirstKept(items, MessageBlocks, i)
    ensures ExtractText(result) == FirstOutputText(items[i])
  {
    assert HasKey(result.entries, "output");
    SelectFirst(items, MessageBlocks, i);
  }

  /** On success the answer is the "text" of the first "output_text" item of
      the first message block, stripped of surrounding whitespace. */
  lemma ExtractFound(result: Json, items: seq<Json>, i: nat, parts: seq<Json>, j: nat, s: string)
    requires OutputIs(result, items) && FirstKept(items, MessageBlocks, i)
    requires Lookup(items[i].entries, "content") == Some(JList(parts)) && AllDicts(parts)
    requires FirstKept(parts, OutputTexts, j)
    requires Lookup(parts[j].entries, "text") == Some(JStr(s))
    ensures ExtractText(result) == Text(Strip(s))
  {
    FirstBlockAnswer(result, items, i);
    ContentAnswer(items[i], parts, j);
    assert Subscript(parts[j], "text") == Ok(JStr(s));
  }

  /** Inside a block whose content is a list of dicts, the answer comes from
      the first "output_text" item. */
  lemma ContentAnswer(block: Json, parts: seq<Json>, j: nat)
    requires block.JDict? && Lookup(block.entries, "content") == Some(JList(parts)) && AllDicts(parts)
    requires FirstKept(parts, OutputTexts, j)
    ensures FirstOutputText(block) ==
      match Subscript(parts[j], "text")
      case Err(e) => ParseError(e)
      case Ok(JStr(s)) => Text(Strip(s))
      case Ok(other) => ParseError(NoAttribute(TypeName(other), "strip"))
  {
    SelectFirst(parts, OutputTexts, j);
  }

  /** A first "output_text" item without a "text" key raises KeyError, which
      comes back as "Error parsing response: 'text'". */
  lemma ExtractMissingText(result: Json, items: seq<Json>, i: nat, parts: seq<Json>, j: nat)
    requires OutputIs(result, items) && FirstKept(items, MessageBlocks, i)
    requires Lookup(items[i].entries, "content") == Some(JList(parts)) && AllDicts(parts)
    requires FirstKept(parts, OutputTexts, j)
    requires !HasKey(parts[j].entries, "text")
    ensures ExtractText(result) == ParseError(MissingKey("text"))
    ensures Render(ExtractText(result)) == "Error parsing response: 'text'"
  {
    FirstBlockAnswer(result, items, i);
    ContentAnswer(items[i], parts, j);
  }

  /** An output item that is not a dict raises AttributeError on `.get`,
      which comes back as an "Error parsing response: " string. */
  lemma ExtractNonDictItem(result: Json, items: seq<Json>, i: nat)
    requires result.JDict? && Lookup(result.entries, "output") == Some(JList(items))
    requires i < |items| && !items[i].JDict?
    requires forall k :: 0 <= k < i ==> items[k].JDict?
    ensures ExtractText(result) == ParseError(NoAttribute(TypeName(items[i]), "get"))
    ensures Render(ExtractText(result)) ==
      "Error parsing response: '" + TypeName(items[i]) + "' object has no attribute 'get'"
  {
    assert HasKey(result.entries, "output");
    SelectRaises(items, MessageBlocks, i);
    RenderNoGet(TypeName(items[i]));
  }

  /** The rendered AttributeError for a missing `get`. */
  lemma RenderNoGet(typeName: string)
    ensures Render(ParseError(NoAttribute(typeName, "get")))
      == "Error parsing response: '" + typeName + "' object has no attribute 'get'"
  {
    var head := "Error parsing response: ";
    var mid := "' object has no attribute '";
    assert mid + "get" + "'" == "' object has no attribute 'get'";
    assert head + ("'" + typeName + mid + "get" + "'") == head + "'" + typeName + (mid + "get" + "'");
    assert head + "'" == "Error parsing response: '";
  }
}
