/** Attribute rendering: `ssrRenderAttrs`, `ssrRenderDynamicAttr`,
    `ssrRenderAttr`, `isRenderableValue`, `ssrRenderClass`, `ssrRenderStyle`. */
module Attrs {
  import opened Shared

  /** `isRenderableValue`: strings, numbers and booleans; never null, undefined or an object. */
  predicate IsRenderableValue(v: Value)
  {
    v.String? || v.Number? || v.Boolean?
  }

  /** The name `ssrRenderDynamicAttr` writes for `key`: the raw key on a custom
      element, otherwise the DOM-property alias or the lower-cased key. */
  function AttrKey(f: Facade, key: string, tag: string): string
  {
    if IsCustomElementTag(tag) then key
    else if key in f.propsToAttrMap && f.propsToAttrMap[key] != "" then f.propsToAttrMap[key]
    else f.toLowerCase(key)
  }

  /** `ssrRenderDynamicAttr`: one attribute whose key is only known at run time. */
  function RenderDynamicAttr(f: Facade, key: string, value: Value, tag: string): (r: string)
    ensures var k := AttrKey(f, key, tag);
      && (r == "" <==>
           || !IsRenderableValue(value)
           || (f.isBooleanAttr(k) && value == Boolean(false))
           || (!f.isBooleanAttr(k) && !f.isSSRSafeAttrName(k)))
      && (r != "" ==> (f.isBooleanAttr(k) || f.isSSRSafeAttrName(k)) && " " + k <= r)
      && (IsRenderableValue(value) && f.isBooleanAttr(k) && value != Boolean(false) ==> r == " " + k)
      && (IsRenderableValue(value) && !f.isBooleanAttr(k) && f.isSSRSafeAttrName(k) ==>
            r == if value == String("") then " " + k
                 else " " + k + "=\"" + f.escapeHtml(f.jsString(value)) + "\"")
  {
    if !IsRenderableValue(value) then ""
    else
      var attrKey := AttrKey(f, key, tag);
      if f.isBooleanAttr(attrKey) then
        (if value == Boolean(false) then "" else " " + attrKey)
      else if f.isSSRSafeAttrName(attrKey) then
        (if value == String("") then " " + attrKey
         else " " + attrKey + "=\"" + f.escapeHtml(f.jsString(value)) + "\"")
      else
        // the source warns about the unsafe name
        ""
  }

  /** `ssrRenderAttr`: an attribute whose key the compiler already checked. */
  function RenderAttr(f: Facade, key: string, value: Value): (r: string)
    ensures r == "" <==> !IsRenderableValue(value)
    ensures IsRenderableValue(value) ==> r == " " + key + "=\"" + f.escapeHtml(f.jsString(value)) + "\""
  {
    if !IsRenderableValue(value) then "" else " " + key + "=\"" + f.escapeHtml(f.jsString(value)) + "\""
  }

  /** `ssrRenderClass`. */
  function RenderClass(f: Facade, raw: Value): string
  {
    f.escapeHtml(f.normalizeClass(raw))
  }

  /** `ssrRenderStyle`: nothing for a falsy value, an escaped string as is,
      anything else normalised and stringified first. */
  function RenderStyle(f: Facade, raw: Value): (r: string)
    ensures !Truthy(raw) ==> r == ""
    ensures Truthy(raw) && raw.String? ==> r == f.escapeHtml(raw.s)
    ensures Truthy(raw) && !raw.String? ==> r == f.escapeHtml(f.styleToString(raw))
  {
    if !Truthy(raw) then ""
    else if raw.String? then f.escapeHtml(raw.s)
    else f.escapeHtml(f.styleToString(raw))
  }

  /** The keys `ssrRenderAttrs` passes over: the empty key, `key`, `ref`,
      `innerHTML`, `textContent`, event listeners, and `value` on a textarea. */
  predicate ShouldSkip(key: string, tag: string)
  {
    || key in {"", "key", "ref", "innerHTML", "textContent"}
    || IsOn(key)
    || (tag == "textarea" && key == "value")
  }

  /** The text one property contributes when it is not skipped. */
  function PropText(f: Facade, p: Prop, tag: string): string
  {
    if p.key == "class" then " class=\"" + RenderClass(f, p.value) + "\""
    else if p.key == "style" then " style=\"" + RenderStyle(f, p.value) + "\""
    else RenderDynamicAttr(f, p.key, p.value, tag)
  }

  /** What one property adds to the attribute string. */
  function Piece(f: Facade, p: Prop, tag: string): string
  {
    if ShouldSkip(p.key, tag) then "" else PropText(f, p, tag)
  }

  /** The pieces `piece` gives for `props`, concatenated in order. */
  function Joined(piece: Prop -> string, props: seq<Prop>): string
  {
    if props == [] then ""
    else Joined(piece, props[..|props| - 1]) + piece(props[|props| - 1])
  }

  /** The string `ssrRenderAttrs` builds for `props`. */
  function AttrsText(f: Facade, props: seq<Prop>, tag: string): string
  {
    Joined(p => Piece(f, p, tag), props)
  }

  /** `ssrRenderAttrs`. */
  method RenderAttrs(f: Facade, props: seq<Prop>, tag: string) returns (ret: string)
    ensures ret == AttrsText(f, props, tag)
  {
    ret := "";
    var i := 0;
    while i < |props|
      invariant 0 <= i <= |props|
      invariant ret == AttrsText(f, props[..i], tag)
    {
      assert props[..i + 1][..i] == props[..i];
      var key := props[i].key;
      if ShouldSkip(key, tag) {
        i := i + 1;
        continue;
      }
      var value := props[i].value;
      var piece;
      if key == "class" {
        piece := " class=\"" + RenderClass(f, value) + "\"";
      } else if key == "style" {
        piece := " style=\"" + RenderStyle(f, value) + "\"";
      } else {
        piece := RenderDynamicAttr(f, key, value, tag);
      }
      assert piece == PropText(f, props[i], tag);
      ret := ret + piece;
      i := i + 1;
    }
    assert props[..i] == props;
  }

  /** The properties `ssrRenderAttrs` does not skip, in order. */
  function Kept(props: seq<Prop>, tag: string): (r: seq<Prop>)
    ensures forall i :: 0 <= i < |r| ==> !ShouldSkip(r[i].key, tag)
  {
    if props == [] then []
    else
      var last := props[|props| - 1];
      Kept(props[..|props| - 1], tag) + (if ShouldSkip(last.key, tag) then [] else [last])
  }

  lemma {:induction false} JoinedAppend(piece: Prop -> string, a: seq<Prop>, b: seq<Prop>)
    ensures Joined(piece, a + b) == Joined(piece, a) + Joined(piece, b)
    decreases |b|
  {
    if b == [] {
      assert a + b == a;
    } else {
      var n := |b| - 1;
      assert (a + b)[..|a + b| - 1] == a + b[..n];
      JoinedAppend(piece, a, b[..n]);
    }
  }

  /** Attributes are rendered property by property, in for-in order. */
  lemma AttrsTextAppend(f: Facade, a: seq<Prop>, b: seq<Prop>, tag: string)
    ensures AttrsText(f, a + b, tag) == AttrsText(f, a, tag) + AttrsText(f, b, tag)
  {
    JoinedAppend(p => Piece(f, p, tag), a, b);
  }

  lemma AttrsTextOne(f: Facade, p: Prop, tag: string)
    ensures AttrsText(f, [p], tag) == Piece(f, p, tag)
  {
    var piece := q => Piece(f, q, tag);
    assert [p][..0] == [];
    assert Joined(piece, [p]) == Joined(piece, []) + piece(p);
  }

  /** Skipped keys contribute nothing: rendering the props is rendering the kept ones. */
  lemma {:induction false} SkippedKeysIgnored(f: Facade, props: seq<Prop>, tag: string)
    ensures AttrsText(f, props, tag) == AttrsText(f, Kept(props, tag), tag)
    decreases |props|
  {
    if props != [] {
      var n := |props| - 1;
      var last := props[n];
      SkippedKeysIgnored(f, props[..n], tag);
      if ShouldSkip(last.key, tag) {
        assert Kept(props, tag) == Kept(props[..n], tag);
      } else {
        assert Kept(props, tag) == Kept(props[..n], tag) + [last];
        AttrsTextAppend(f, Kept(props[..n], tag), [last], tag);
        assert [last][..0] == [];
      }
    }
  }

  /** A textarea never renders its `value` as an attribute, and no element
      renders `innerHTML`, `textContent`, `key`, `ref` or a listener. */
  lemma {:induction false} OnlySkippedKeysRenderNothing(f: Facade, props: seq<Prop>, tag: string)
    requires forall i :: 0 <= i < |props| ==> ShouldSkip(props[i].key, tag)
    ensures AttrsText(f, props, tag) == ""
    decreases |props|
  {
    if props != [] {
      var n := |props| - 1;
      OnlySkippedKeysRenderNothing(f, props[..n], tag);
    }
  }

  lemma {:induction false} KeptOnlyFromProps(props: seq<Prop>, tag: string)
    ensures forall q :: q in Kept(props, tag) ==> q in props
    decreases |props|
  {
    if props != [] {
      var n := |props| - 1;
      KeptOnlyFromProps(props[..n], tag);
      forall q | q in Kept(props, tag) ensures q in props {
        if q in Kept(props[..n], tag) {
          assert q in props[..n];
        }
      }
    }
  }

  /** A kept `class` or `style` property always renders as that attribute
      with a value `escapeHtml` produced, or an empty style for a falsy value:
      no unescaped value reaches the open tag through these two keys. */
  lemma ClassAndStyleEscaped(f: Facade, p: Prop, tag: string)
    requires p.key == "class" || p.key == "style"
    ensures exists v :: Piece(f, p, tag) == " " + p.key + "=\"" + v + "\""
                        && (v == "" || exists s :: v == f.escapeHtml(s))
    ensures p.key == "style" && !Truthy(p.value) ==> Piece(f, p, tag) == " style=\"\""
  {
    assert !ShouldSkip(p.key, tag);
    if p.key == "class" {
      var s := f.normalizeClass(p.value);
      var v := f.escapeHtml(s);
      assert Piece(f, p, tag) == " class=\"" + v + "\"";
      assert Piece(f, p, tag) == " " + p.key + "=\"" + v + "\"";
    } else {
      var v := RenderStyle(f, p.value);
      assert Piece(f, p, tag) == " style=\"" + v + "\"";
      assert Piece(f, p, tag) == " " + p.key + "=\"" + v + "\"";
      if Truthy(p.value) {
        var s := if p.value.String? then p.value.s else f.styleToString(p.value);
        assert v == f.escapeHtml(s);
      }
    }
  }

  /** The static-key renderer agrees with the dynamic one on a plain, safe,
      non-boolean name, except that an empty string is written `key=""`
      there and as a bare key here. */
  lemma StaticMatchesDynamic(f: Facade, key: string, value: Value, tag: string)
    requires AttrKey(f, key, tag) == key
    requires !f.isBooleanAttr(key) && f.isSSRSafeAttrName(key)
    ensures value != String("") ==> RenderAttr(f, key, value) == RenderDynamicAttr(f, key, value, tag)
    ensures value == String("") ==>
      RenderAttr(f, key, value) == RenderDynamicAttr(f, key, value, tag) + "=\"" + f.escapeHtml(f.jsString(value)) + "\""
  {
  }
}
