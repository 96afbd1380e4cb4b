/** The translation tables the language menu reads: parsed JSON values, and the dotted-path
    lookup getNestedValue that LanguageManager uses to find the text for an element. */
module Translations {
  import opened Wrappers
  import opened JsText

  /** A JavaScript value as JSON parsing produces it. Numbers are integers here. */
  datatype JsValue =
    | Undefined
    | Null
    | Boolean(b: bool)
    | Number(n: int)
    | Str(s: string)
    | Array(items: seq<JsValue>)
    | Object(props: map<string, JsValue>)

  /** JavaScript truthiness: undefined, null, false, 0 and "" are falsy. */
  predicate Truthy(v: JsValue)
    ensures !Truthy(v) <==> v in {Undefined, Null, Boolean(false), Number(0), Str("")}
    ensures v.Array? || v.Object? ==> Truthy(v)
  {
    match v
    case Undefined => false
    case Null => false
    case Boolean(b) => b
    case Number(n) => n != 0
    case Str(s) => s != ""
    case Array(_) => true
    case Object(_) => true
  }

  /** The test `value && typeof value === 'string'`: a string that is not empty. */
  predicate IsText(v: JsValue) {
    v.Str? && v.s != ""
  }

  predicate Nullish(v: JsValue) {
    v.Undefined? || v.Null?
  }

  /** current?.[key]: undefined on null and undefined; the own properties of a string
      (its length and its characters), of an array (its length and its elements) and of an
      object; a number or a boolean has no own property. */
  function GetProperty(v: JsValue, key: string): (r: JsValue)
    ensures Nullish(v) ==> r == Undefined
    ensures v.Object? ==> r == (if key in v.props then v.props[key] else Undefined)
    ensures v.Str? && key == "length" ==> r == Number(|v.s|)
    ensures v.Array? && key == "length" ==> r == Number(|v.items|)
    ensures v.Str? && key != "length" ==>
      r == (if ArrayIndex(key).Some? && ArrayIndex(key).value < |v.s| then Str([v.s[ArrayIndex(key).value]])
            else Undefined)
    ensures v.Array? && key != "length" ==>
      r == (if ArrayIndex(key).Some? && ArrayIndex(key).value < |v.items| then v.items[ArrayIndex(key).value]
            else Undefined)
    ensures v.Boolean? || v.Number? ==> r == Undefined
  {
    match v
    case Undefined => Undefined
    case Null => Undefined
    case Boolean(_) => Undefined
    case Number(_) => Undefined
    case Str(s) =>
      if key == "length" then Number(|s|)
      else (match ArrayIndex(key)
        case Some(i) => if i < |s| then Str([s[i]]) else Undefined
        case None => Undefined)
    case Array(items) =>
      if key == "length" then Number(|items|)
      else (match ArrayIndex(key)
        case Some(i) => if i < |items| then items[i] else Undefined
        case None => Undefined)
    case Object(props) => if key in props then props[key] else Undefined
  }

  /** keys.reduce((current, key) => current?.[key], v): look up each key in turn. Once a
      step gives undefined every later step does too. */
  function Fold(v: JsValue, keys: seq<string>): (r: JsValue)
    ensures v.Undefined? ==> r.Undefined?
    ensures v.Null? && |keys| > 0 ==> r.Undefined?
    ensures |keys| == 1 ==> r == GetProperty(v, keys[0])
    decreases |keys|
  {
    if keys == [] then v else Fold(GetProperty(v, keys[0]), keys[1..])
  }

  /** getNestedValue(obj, path). */
  function GetNestedValue(obj: JsValue, path: string): (r: JsValue)
    ensures Nullish(obj) ==> r == Undefined
    ensures '.' !in path ==> r == GetProperty(obj, path)
  {
    if '.' in path then Fold(obj, Split(path, '.'))
    else
      SplitWithoutSeparator(path, '.');
      Fold(obj, Split(path, '.'))
  }

  /** Looking up a sequence of keys is looking up its first part and then the rest. */
  lemma {:induction false} FoldConcat(v: JsValue, a: seq<string>, b: seq<string>)
    ensures Fold(v, a + b) == Fold(Fold(v, a), b)
    decreases |a|
  {
    if a != [] {
      assert (a + b)[0] == a[0];
      assert (a + b)[1..] == a[1..] + b;
      FoldConcat(GetProperty(v, a[0]), a[1..], b);
    } else {
      assert a + b == b;
    }
  }

  /** A path without a dot is one direct property lookup. */
  lemma NestedSingleSegment(obj: JsValue, key: string)
    requires '.' !in key
    ensures GetNestedValue(obj, key) == GetProperty(obj, key)
  {
    SplitWithoutSeparator(key, '.');
  }

  /** Looking up "a.b" is looking up b in the value found at a. */
  lemma NestedCompose(obj: JsValue, a: string, b: string)
    ensures GetNestedValue(obj, a + "." + b) == GetNestedValue(GetNestedValue(obj, a), b)
  {
    SplitAtSeparator(a, '.', b);
    FoldConcat(obj, Split(a, '.'), Split(b, '.'));
  }

  /** When a step of the path finds nothing (null or undefined), the whole lookup is
      undefined, however the path goes on. */
  lemma NestedMissingStep(obj: JsValue, a: string, b: string)
    requires Nullish(GetNestedValue(obj, a))
    ensures GetNestedValue(obj, a + "." + b) == Undefined
  {
    NestedCompose(obj, a, b);
  }

  /** In a tree of objects, "k.rest" with a dot-free key k descends into the child at k;
      a missing child makes the lookup undefined. */
  lemma NestedDescends(props: map<string, JsValue>, k: string, rest: string)
    requires '.' !in k
    ensures GetNestedValue(Object(props), k + "." + rest) ==
              if k in props then GetNestedValue(props[k], rest) else Undefined
  {
    NestedCompose(Object(props), k, rest);
    NestedSingleSegment(Object(props), k);
  }
}
