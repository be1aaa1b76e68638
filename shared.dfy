/** JavaScript values as the server renderer inspects them, and the helpers it
    takes from `@vue/shared` and from the JavaScript runtime.

    The helpers are not interpreted: a `Facade` holds one total function per
    helper and every operation that needs one takes the facade as a parameter,
    so no proof depends on how escaping or normalisation is done. */
module Shared {

  datatype Option<+T> = None | Some(value: T)

  /** A JavaScript value. Numbers are reals, so NaN and -0 do not occur. */
  datatype Value =
    | Undefined
    | Null
    | Boolean(b: bool)
    | Number(n: real)
    | String(s: string)
    | Array(elems: seq<Value>)
    | Object(entries: seq<Prop>)
    | Function

  /** An own enumerable property of an object; an object is its properties in
      for-in order, and a real object's keys are distinct. */
  datatype Prop = Prop(key: string, value: Value)

  /** The helpers of `@vue/shared` and the built-ins the renderer calls. */
  datatype Facade = Facade(
    escapeHtml: string -> string,
    escapeHtmlComment: string -> string,
    jsString: Value -> string,          // the string conversion `'' + value`
    normalizeClass: Value -> string,
    styleToString: Value -> string,     // stringifyStyle(normalizeStyle(raw))
    isBooleanAttr: string -> bool,
    isSSRSafeAttrName: string -> bool,
    isVoidTag: string -> bool,
    propsToAttrMap: map<string, string>,
    toLowerCase: string -> string,
    looseEqual: (Value, Value) -> bool)

  /** JavaScript truthiness. */
  predicate Truthy(v: Value)
  {
    match v
    case Undefined => false
    case Null => false
    case Boolean(b) => b
    case Number(n) => n != 0.0
    case String(s) => s != ""
    case _ => true
  }

  predicate HasKey(props: seq<Prop>, key: string)
  {
    exists i :: 0 <= i < |props| && props[i].key == key
  }

  /** The property at index `i` is the first one named `key`. */
  predicate FirstWithKey(props: seq<Prop>, key: string, i: int)
  {
    0 <= i < |props| && props[i].key == key && forall j :: 0 <= j < i ==> props[j].key != key
  }

  /** `props[key]`: the value of the first property named `key`, or undefined. */
  function Lookup(props: seq<Prop>, key: string): (v: Value)
    ensures !HasKey(props, key) ==> v == Undefined
  {
    if props == [] then Undefined
    else if props[0].key == key then props[0].value
    else
      assert !HasKey(props, key) ==> !HasKey(props[1..], key) by {
        if HasKey(props[1..], key) {
          var k :| 0 <= k < |props[1..]| && props[1..][k].key == key;
          assert props[k + 1].key == key;
        }
      }
      Lookup(props[1..], key)
  }

  /** A key that is present reads the value of its first property. */
  lemma {:induction false} LookupFirst(props: seq<Prop>, key: string)
    requires HasKey(props, key)
    ensures exists i :: FirstWithKey(props, key, i) && props[i].value == Lookup(props, key)
  {
    if props[0].key == key {
      assert FirstWithKey(props, key, 0);
    } else {
      var k :| 0 <= k < |props| && props[k].key == key;
      assert props[1..][k - 1].key == key;
      LookupFirst(props[1..], key);
      var i :| FirstWithKey(props[1..], key, i) && props[1..][i].value == Lookup(props[1..], key);
      assert FirstWithKey(props, key, i + 1);
    }
  }

  /** Looking a key up in an object whose first property is `p`. */
  lemma LookupCons(p: Prop, rest: seq<Prop>)
    ensures forall k :: Lookup([p] + rest, k) == if p.key == k then p.value else Lookup(rest, k)
  {
    assert ([p] + rest)[0] == p && ([p] + rest)[1..] == rest;
  }

  lemma HasKeyCons(p: Prop, rest: seq<Prop>, key: string)
    ensures HasKey([p] + rest, key) <==> p.key == key || HasKey(rest, key)
  {
    var s := [p] + rest;
    if HasKey(s, key) && p.key != key {
      var i :| 0 <= i < |s| && s[i].key == key;
      assert rest[i - 1].key == key;
    }
    if HasKey(rest, key) {
      var i :| 0 <= i < |rest| && rest[i].key == key;
      assert s[i + 1].key == key;
    }
    if p.key == key {
      assert s[0].key == key;
    }
  }

  /** `obj[key] = v` on a plain object: an existing property keeps its place, a new one goes last. */
  function SetProp(props: seq<Prop>, key: string, v: Value): (r: seq<Prop>)
    ensures Lookup(r, key) == v
    ensures forall k :: k != key ==> Lookup(r, k) == Lookup(props, k)
    ensures |r| == if HasKey(props, key) then |props| else |props| + 1
  {
    if props == [] then
      LookupCons(Prop(key, v), []);
      assert [Prop(key, v)] + [] == [Prop(key, v)];
      [Prop(key, v)]
    else
      var p, tail := props[0], props[1..];
      assert props == [p] + tail;
      LookupCons(p, tail);
      HasKeyCons(p, tail, key);
      if p.key == key then
        LookupCons(Prop(key, v), tail);
        [Prop(key, v)] + tail
      else
        var rest := SetProp(tail, key, v);
        LookupCons(p, rest);
        [p] + rest
  }

  /** `isOn` of `@vue/shared`: the key matches /^on[^a-z]/. */
  predicate IsOn(key: string)
  {
    |key| >= 3 && key[0] == 'o' && key[1] == 'n' && !('a' <= key[2] <= 'z')
  }

  /** `tag && tag.indexOf('-') > 0`: the tag is a custom element name. */
  predicate IsCustomElementTag(tag: string)
  {
    |tag| > 0 && tag[0] != '-' && '-' in tag
  }
}
