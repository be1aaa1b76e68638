/** The small runtime helpers compiled templates call: `ssrRenderList`
    (`v-for`), `ssrLooseContain`, `ssrRenderDynamicModel` and
    `ssrGetDynamicModelProps` (`v-model` on an input whose type is only
    known at run time). */
module Helpers {
  import opened Shared
  import opened Attrs

  /** One call `renderItem(item, key)`, or `renderItem(item, key, index)`
      when `index` is present (the object case). */
  datatype ItemCall = ItemCall(item: Value, key: Value, index: Option<nat>)

  /** `Number.isInteger`. */
  predicate IsInteger(n: real)
  {
    n.Floor as real == n
  }

  /** How many times `for (let i = 0; i < n; i++)` runs for an integer `n`. */
  function RangeLength(n: int): nat
  {
    if n > 0 then n else 0
  }

  /** `ssrRenderList(source, renderItem)`: the calls it makes, in order. */
  method RenderList(source: Value) returns (calls: seq<ItemCall>)
    ensures source.Array? ==>
      |calls| == |source.elems| &&
      forall i :: 0 <= i < |calls| ==> calls[i] == ItemCall(source.elems[i], Number(i as real), None)
    ensures source.String? ==>
      |calls| == |source.s| &&
      forall i :: 0 <= i < |calls| ==> calls[i] == ItemCall(String([source.s[i]]), Number(i as real), None)
    ensures source.Number? && IsInteger(source.n) ==>
      |calls| == RangeLength(source.n.Floor) &&
      forall i :: 0 <= i < |calls| ==> calls[i] == ItemCall(Number((i + 1) as real), Number(i as real), None)
    ensures source.Number? && !IsInteger(source.n) ==> calls == []
    ensures source.Object? ==>
      |calls| == |source.entries| &&
      forall i :: 0 <= i < |calls| ==> calls[i] == ObjectCall(source.entries, i)
    ensures !(source.Array? || source.String? || source.Number? || source.Object?) ==> calls == []
  {
    match source
    case Array(elems) => calls := ListArray(elems);
    case String(s) => calls := ListString(s);
    case Number(n) =>
      if IsInteger(n) {
        calls := ListRange(n);
      } else {
        // the source warns and renders nothing
        calls := [];
      }
    case Object(entries) => calls := ListObject(entries);
    case _ => calls := [];
  }

  /** The array case: `renderItem(source[i], i)` for each index. */
  method ListArray(elems: seq<Value>) returns (calls: seq<ItemCall>)
    ensures |calls| == |elems|
    ensures forall i :: 0 <= i < |calls| ==> calls[i] == ItemCall(elems[i], Number(i as real), None)
  {
    calls := [];
    var i := 0;
    while i < |elems|
      invariant 0 <= i <= |elems| && |calls| == i
      invariant forall j :: 0 <= j < i ==> calls[j] == ItemCall(elems[j], Number(j as real), None)
    {
      calls := calls + [ItemCall(elems[i], Number(i as real), None)];
      i := i + 1;
    }
  }

  /** The string case: `renderItem(source[i], i)` for each character. */
  method ListString(s: string) returns (calls: seq<ItemCall>)
    ensures |calls| == |s|
    ensures forall i :: 0 <= i < |calls| ==> calls[i] == ItemCall(String([s[i]]), Number(i as real), None)
  {
    calls := [];
    var i := 0;
    while i < |s|
      invariant 0 <= i <= |s| && |calls| == i
      invariant forall j :: 0 <= j < i ==> calls[j] == ItemCall(String([s[j]]), Number(j as real), None)
    {
      calls := calls + [ItemCall(String([s[i]]), Number(i as real), None)];
      i := i + 1;
    }
  }

  /** The integer case: `renderItem(i + 1, i)` for `0 <= i < n`. */
  method ListRange(n: real) returns (calls: seq<ItemCall>)
    requires IsInteger(n)
    ensures |calls| == RangeLength(n.Floor)
    ensures forall i :: 0 <= i < |calls| ==> calls[i] == ItemCall(Number((i + 1) as real), Number(i as real), None)
  {
    calls := [];
    var i := 0;
    while (i as real) < n
      invariant 0 <= i <= RangeLength(n.Floor) && |calls| == i
      invariant forall j :: 0 <= j < i ==> calls[j] == ItemCall(Number((j + 1) as real), Number(j as real), None)
      decreases n.Floor - i
    {
      calls := calls + [ItemCall(Number((i + 1) as real), Number(i as real), None)];
      i := i + 1;
    }
  }

  /** The call the object case makes for its `i`-th key. */
  function ObjectCall(entries: seq<Prop>, i: nat): ItemCall
    requires i < |entries|
  {
    ItemCall(Lookup(entries, entries[i].key), String(entries[i].key), Some(i))
  }

  /** The object case: `renderItem(source[key], key, i)` for each key in order. */
  method ListObject(entries: seq<Prop>) returns (calls: seq<ItemCall>)
    ensures |calls| == |entries|
    ensures forall i :: 0 <= i < |calls| ==> calls[i] == ObjectCall(entries, i)
  {
    calls := [];
    var i := 0;
    while i < |entries|
      invariant 0 <= i <= |entries| && |calls| == i
      invariant forall j :: 0 <= j < i ==> calls[j] == ObjectCall(entries, j)
    {
      var key := entries[i].key;
      var call := ItemCall(Lookup(entries, key), String(key), Some(i));
      assert call == ObjectCall(entries, i);
      calls := calls + [call];
      i := i + 1;
    }
  }

  /** `ssrLooseContain(arr, value)`: `looseIndexOf(arr, value) > -1`. */
  predicate LooseContain(f: Facade, arr: seq<Value>, value: Value)
  {
    exists i :: 0 <= i < |arr| && f.looseEqual(arr[i], value)
  }

  /** Whether a checkbox is checked: by membership when the model is an
      array, otherwise by the model's truthiness. */
  predicate CheckboxChecked(f: Facade, model: Value, value: Value)
  {
    if model.Array? then LooseContain(f, model.elems, value) else Truthy(model)
  }

  /** `ssrRenderDynamicModel(type, model, value)`. */
  function RenderDynamicModel(f: Facade, inputType: Value, model: Value, value: Value): (r: string)
    ensures inputType == String("radio") ==> (r == " checked" <==> f.looseEqual(model, value)) && (r == "" || r == " checked")
    ensures inputType == String("checkbox") ==> (r == " checked" <==> CheckboxChecked(f, model, value)) && (r == "" || r == " checked")
    ensures inputType != String("radio") && inputType != String("checkbox") ==> r == RenderAttr(f, "value", model)
  {
    if inputType == String("radio") then
      (if f.looseEqual(model, value) then " checked" else "")
    else if inputType == String("checkbox") then
      (if CheckboxChecked(f, model, value) then " checked" else "")
    else RenderAttr(f, "value", model)
  }

  const CheckedProps := [Prop("checked", Boolean(true))]

  /** `ssrGetDynamicModelProps(existingProps, model)`; None is `null`. */
  function GetDynamicModelProps(f: Facade, existingProps: seq<Prop>, model: Value): (r: Option<seq<Prop>>)
    ensures var t := Lookup(existingProps, "type");
            var value := Lookup(existingProps, "value");
            && (t == String("radio") ==> (r == Some(CheckedProps) <==> f.looseEqual(model, value)) && (r.None? || r == Some(CheckedProps)))
            && (t == String("checkbox") ==> (r == Some(CheckedProps) <==> CheckboxChecked(f, model, value)) && (r.None? || r == Some(CheckedProps)))
            && (t != String("radio") && t != String("checkbox") ==> r == Some([Prop("value", model)]))
  {
    var inputType := Lookup(existingProps, "type");
    var value := Lookup(existingProps, "value");
    if inputType == String("radio") then
      (if f.looseEqual(model, value) then Some(CheckedProps) else None)
    else if inputType == String("checkbox") then
      (if CheckboxChecked(f, model, value) then Some(CheckedProps) else None)
    else Some([Prop("value", model)])
  }

  lemma CheckedPropRenders(f: Facade)
    requires AttrKey(f, "checked", "input") == "checked" && f.isBooleanAttr("checked")
    ensures AttrsText(f, CheckedProps, "input") == " checked"
  {
    AttrsTextOne(f, Prop("checked", Boolean(true)), "input");
    assert !ShouldSkip("checked", "input");
    assert PropText(f, Prop("checked", Boolean(true)), "input") == RenderDynamicAttr(f, "checked", Boolean(true), "input");
  }

  /** `{value: model}` on an input renders as the static `value` attribute,
      except that an empty-string model is written as a bare ` value`. */
  lemma ValuePropRenders(f: Facade, model: Value)
    requires AttrKey(f, "value", "input") == "value" && !f.isBooleanAttr("value") && f.isSSRSafeAttrName("value")
    ensures model != String("") ==> AttrsText(f, [Prop("value", model)], "input") == RenderAttr(f, "value", model)
    ensures model == String("") ==> AttrsText(f, [Prop("value", model)], "input") == " value"
    ensures model == String("") ==>
      RenderAttr(f, "value", model) == " value" + "=\"" + f.escapeHtml(f.jsString(model)) + "\""
  {
    AttrsTextOne(f, Prop("value", model), "input");
    assert !ShouldSkip("value", "input");
    assert PropText(f, Prop("value", model), "input") == RenderDynamicAttr(f, "value", model, "input");
    StaticMatchesDynamic(f, "value", model, "input");
  }

  /** The two `v-model` paths render the same attributes: the props object
      that `ssrGetDynamicModelProps` returns, rendered by `ssrRenderAttrs` on
      an `<input>`, is the string `ssrRenderDynamicModel` writes, provided
      `checked` is a boolean attribute and `value` a plain safe one written
      as it is named. The one difference is an empty-string model on an input
      that is neither a radio nor a checkbox: a bare ` value` on the props
      path, ` value=""` (escaped) on the other. */
  lemma DynamicModelPathsAgree(f: Facade, existingProps: seq<Prop>, model: Value)
    requires AttrKey(f, "checked", "input") == "checked" && f.isBooleanAttr("checked")
    requires AttrKey(f, "value", "input") == "value" && !f.isBooleanAttr("value") && f.isSSRSafeAttrName("value")
    ensures var inputType := Lookup(existingProps, "type");
            var r := GetDynamicModelProps(f, existingProps, model);
            var viaProps := AttrsText(f, if r.Some? then r.value else [], "input");
            var direct := RenderDynamicModel(f, inputType, model, Lookup(existingProps, "value"));
            && (model != String("") || inputType == String("radio") || inputType == String("checkbox") ==>
                  viaProps == direct)
            && (model == String("") && inputType != String("radio") && inputType != String("checkbox") ==>
                  viaProps == " value" && direct == viaProps + "=\"" + f.escapeHtml(f.jsString(model)) + "\"")
  {
    CheckedPropRenders(f);
    ValuePropRenders(f, model);
  }
}
