/** Decoded YAML and JSON documents, paths into them, and the two text codecs the controller relies on. */
module Documents {

  datatype Option<+T> = None | Some(value: T)

  /** A decoded value. `Scalar` is any scalar that is not a string, given by its normal printed form;
      mappings have string keys, as Go's `map[string]interface{}` demands. */
  datatype Value =
    | Null
    | Str(text: string)
    | Scalar(text: string)
    | List(items: seq<Value>)
    | Map(fields: map<string, Value>)
  {
    /** Looking up a key of a Go map: a missing key reads as nil. */
    function Get(key: string): Value {
      if Map? && key in fields then fields[key] else Null
    }

    function With(key: string, v: Value): Value
      requires Map?
    {
      Map(fields[key := v])
    }
  }

  datatype Step = Key(key: string) | Index(index: nat)

  type Path = seq<Step>

  function Child(v: Value, step: Step): Option<Value> {
    match step
    case Key(k) => if v.Map? && k in v.fields then Some(v.fields[k]) else None
    case Index(i) => if v.List? && i < |v.items| then Some(v.items[i]) else None
  }

  /** The subtree that a path leads to. */
  function At(v: Value, p: Path): Option<Value> {
    if p == [] then Some(v)
    else match Child(v, p[0])
      case None => None
      case Some(w) => At(w, p[1..])
  }

  /** What a node says on its own, without its children; lists also show their length. */
  datatype Label = NullLabel | StrLabel(text: string) | ScalarLabel(text: string) | ListLabel(length: nat) | MapLabel

  function LabelOf(v: Value): Label {
    match v
    case Null => NullLabel
    case Str(s) => StrLabel(s)
    case Scalar(s) => ScalarLabel(s)
    case List(items) => ListLabel(|items|)
    case Map(_) => MapLabel
  }

  function LabelAt(v: Value, p: Path): Option<Label> {
    match At(v, p)
    case None => None
    case Some(w) => Some(LabelOf(w))
  }

  /** A tree is nothing but the labels at its paths. */
  lemma {:induction false} LabelsDetermineTree(v: Value, w: Value)
    requires forall p: Path :: LabelAt(v, p) == LabelAt(w, p)
    ensures v == w
    decreases v
  {
    assert LabelAt(v, []) == LabelAt(w, []);
    match v
    case List(items) =>
      forall i | 0 <= i < |items|
        ensures items[i] == w.items[i]
      {
        SameBelow(v, w, Index(i));
        LabelsDetermineTree(items[i], w.items[i]);
      }
    case Map(fields) =>
      forall k
        ensures k in fields <==> k in w.fields
        ensures k in fields ==> fields[k] == w.fields[k]
      {
        SameBelow(v, w, Key(k));
        if k in fields {
          LabelsDetermineTree(fields[k], w.fields[k]);
        }
      }
    case _ =>
  }

  lemma SameBelow(v: Value, w: Value, step: Step)
    requires forall p: Path :: LabelAt(v, p) == LabelAt(w, p)
    ensures Child(v, step).Some? == Child(w, step).Some?
    ensures Child(v, step).Some? ==>
              forall p: Path :: LabelAt(Child(v, step).value, p) == LabelAt(Child(w, step).value, p)
  {
    forall p: Path
      ensures Child(v, step).Some? == Child(w, step).Some?
      ensures Child(v, step).Some? ==> LabelAt(Child(v, step).value, p) == LabelAt(Child(w, step).value, p)
    {
      StepInto(v, step, p);
      StepInto(w, step, p);
      StepInto(v, step, []);
      StepInto(w, step, []);
      assert LabelAt(v, [step] + p) == LabelAt(w, [step] + p);
      assert LabelAt(v, [step] + []) == LabelAt(w, [step] + []);
    }
    assert At(v, []).Some?;
    StepInto(v, step, []);
    StepInto(w, step, []);
    assert LabelAt(v, [step] + []) == LabelAt(w, [step] + []);
  }

  lemma StepInto(v: Value, step: Step, p: Path)
    ensures At(v, [step] + p) == match Child(v, step) case None => None case Some(w) => At(w, p)
  {
    assert ([step] + p)[1..] == p;
  }

  // --- Text codecs ---

  /** What a YAML decoder reads from a file: documents one after another, up to the end of the file or to a
      syntax error. */
  datatype Stream = Stream(docs: seq<Value>, broken: bool)

  /** The YAML and JSON libraries, as functions between text and trees. */
  datatype Codec = Codec(
    yamlDecode: string -> Stream,
    yamlEncode: Value -> string,
    jsonDecode: string -> Option<Value>,
    jsonEncode: Value -> string)

  /** Printing a mapping and reading it back gives the mapping. */
  ghost predicate Lawful(c: Codec) {
    && (forall m: map<string, Value> :: c.yamlDecode(c.yamlEncode(Map(m))) == Stream([Map(m)], false))
    && (forall m: map<string, Value> :: c.jsonDecode(c.jsonEncode(Map(m))) == Some(Map(m)))
  }

  // --- Reading an object's header ---

  /** Decoding into a Go string field: null leaves it empty, scalars give their text, anything else is an error. */
  function TextOf(v: Value): Option<string> {
    match v
    case Null => Some("")
    case Str(s) => Some(s)
    case Scalar(s) => Some(s)
    case _ => None
  }

  datatype ObjectName = ObjectName(name: string, namespace: string)

  /** Decoding `metadata.name` and `metadata.namespace` of one document; None is a decode error. */
  function DecodeName(doc: Value): Option<ObjectName> {
    if !doc.Null? && !doc.Map? then None
    else
      var meta := doc.Get("metadata");
      if !meta.Null? && !meta.Map? then None
      else match (TextOf(meta.Get("name")), TextOf(meta.Get("namespace")))
        case (Some(name), Some(namespace)) => Some(ObjectName(name, namespace))
        case _ => None
  }

  datatype Header = Header(kind: string, id: ObjectName)

  /** The same with `apiVersion` and `kind` decoded as well. */
  function DecodeHeader(doc: Value): Option<Header> {
    match (DecodeName(doc), TextOf(doc.Get("kind")), TextOf(doc.Get("apiVersion")))
    case (Some(id), Some(kind), Some(_)) => Some(Header(kind, id))
    case _ => None
  }

  /** A value that a Go string field takes as the text `s`. */
  predicate HasText(v: Value, s: string) {
    v == Str(s) || v == Scalar(s) || (v == Null && s == "")
  }

  predicate IsText(v: Value) {
    v.Null? || v.Str? || v.Scalar?
  }

  /** `metadata.name` and `metadata.namespace` have the texts of the object's name. */
  predicate NamesObject(doc: Value, id: ObjectName) {
    var meta := doc.Get("metadata");
    HasText(meta.Get("name"), id.name) && HasText(meta.Get("namespace"), id.namespace)
  }

  /** A document that the matchers can decode: a mapping or nothing, and so its metadata, with texts for the names. */
  predicate Readable(doc: Value) {
    && (doc.Map? || doc.Null?)
    && var meta := doc.Get("metadata");
    && (meta.Map? || meta.Null?) && IsText(meta.Get("name")) && IsText(meta.Get("namespace"))
  }

  /** Name and namespace are what the two fields of the metadata say. */
  lemma DecodeNameExactly(doc: Value, id: ObjectName)
    ensures DecodeName(doc).Some? <==> Readable(doc)
    ensures DecodeName(doc) == Some(id) <==> Readable(doc) && NamesObject(doc, id)
  {
  }

  lemma DecodeHeaderExactly(doc: Value, kind: string, id: ObjectName)
    ensures DecodeHeader(doc).Some? <==> Readable(doc) && IsText(doc.Get("kind")) && IsText(doc.Get("apiVersion"))
    ensures DecodeHeader(doc) == Some(Header(kind, id)) <==>
            Readable(doc) && IsText(doc.Get("apiVersion")) && NamesObject(doc, id) && HasText(doc.Get("kind"), kind)
  {
  }

  /** Unicode simple case folding, for comparing with ASCII letters: the Kelvin sign and the long s fold too. */
  function FoldChar(ch: char): char {
    if 'A' <= ch <= 'Z' then ch - 'A' + 'a'
    else if ch == '\U{212A}' then 'k'
    else if ch == '\U{017F}' then 's'
    else ch
  }

  predicate EqualFold(s: string, t: string) {
    |s| == |t| && forall i :: 0 <= i < |s| ==> FoldChar(s[i]) == FoldChar(t[i])
  }

  predicate Ascii(s: string) {
    forall i :: 0 <= i < |s| ==> s[i] < 128 as char
  }

  /** The same letter up to ASCII case; the two other characters fold to letters as well. */
  predicate SameLetter(a: char, b: char) {
    || a == b
    || ('A' <= a <= 'Z' && b as int == a as int + 32)
    || ('A' <= b <= 'Z' && a as int == b as int + 32)
    || (a == '\U{212A}' && (b == 'k' || b == 'K'))
    || (a == '\U{017F}' && (b == 's' || b == 'S'))
  }

  /** Any text is folded to an ASCII text exactly if it has the same letters. */
  lemma EqualFoldExactly(s: string, t: string)
    requires Ascii(t)
    ensures EqualFold(s, t) <==> |s| == |t| && forall i :: 0 <= i < |s| ==> SameLetter(s[i], t[i])
  {
    forall i | 0 <= i < |s| && i < |t|
      ensures FoldChar(s[i]) == FoldChar(t[i]) <==> SameLetter(s[i], t[i])
    {
      FoldCharExactly(s[i], t[i]);
    }
  }

  lemma FoldCharExactly(a: char, b: char)
    requires b < 128 as char
    ensures FoldChar(a) == FoldChar(b) <==> SameLetter(a, b)
  {
    assert 'A' <= a <= 'Z' ==> FoldChar(a) as int == a as int + 32;
    assert 'A' <= b <= 'Z' ==> FoldChar(b) as int == b as int + 32;
  }

  const NAD_KIND := "NetworkAttachmentDefinition"
}
