/**
 * The attribute-based selector builders of `CaptchaWrite`: each scans an
 * element's attributes in order and turns the first attribute of its kind
 * into a CSS attribute selector, or answers `null` (here `None`). An
 * element's attributes are a sequence of (name, value) pairs; `None` stands
 * for an `attributes` collection that is `null`.
 */
module Selectors {
  import opened Wrappers
  import opened JsString

  datatype Attr = Attr(name: string, value: string)

  /** `i` is the position of the first attribute satisfying `p`. */
  ghost predicate FirstWith(attrs: seq<Attr>, p: Attr -> bool, i: int) {
    0 <= i < |attrs| && p(attrs[i]) && forall j :: 0 <= j < i ==> !p(attrs[j])
  }

  /** The scan `for (i = 0; i < attrs.length; i++) if (p(attrs[i])) return i`. */
  function FirstAttr(attrs: seq<Attr>, p: Attr -> bool): (r: Option<nat>)
    ensures r.Some? ==> FirstWith(attrs, p, r.value)
    ensures r.None? ==> forall j :: 0 <= j < |attrs| ==> !p(attrs[j])
  {
    if attrs == [] then None
    else if p(attrs[0]) then Some(0)
    else match FirstAttr(attrs[1..], p)
      case None => None
      case Some(i) => Some(i + 1)
  }

  /** The attributes are present and one of them satisfies `p`. */
  ghost predicate Has(attrs: Option<seq<Attr>>, p: Attr -> bool) {
    attrs.Some? && exists i :: 0 <= i < |attrs.value| && p(attrs.value[i])
  }

  /** `value.substring(0, value.indexOf(c) + 1)` when `c` occurs, `value` itself otherwise. */
  function CutAfter(value: string, c: string): string {
    var i := IndexOf(value, c);
    if i != -1 then value[..i + |c|] else value
  }

  /** An attribute `name='value'` selector. */
  function Equals(a: Attr): string {
    a.name + "='" + a.value + "'"
  }

  /** A prefix selector `name^='value'`. */
  function StartsWith(a: Attr, value: string): string {
    a.name + "^='" + value + "'"
  }

  predicate IsDataV(a: Attr) { IndexOf(a.name, "data-v-") != -1 }

  predicate IsPlaceholder(a: Attr) { Lower(a.name) == "placeholder" && a.value != "" }

  predicate IsAlt(a: Attr) { Lower(a.name) == "alt" }

  predicate IsSrc(a: Attr) { Lower(a.name) == "src" && IndexOf(a.value, "data:image") != 0 }

  predicate IsOnClick(a: Attr) { Lower(a.name) == "onclick" }

  /** `getDataV`: the name of the first attribute whose name contains `data-v-`. */
  function GetDataV(attrs: Option<seq<Attr>>): (r: Option<string>)
    ensures r.Some? <==> Has(attrs, IsDataV)
    ensures r.Some? ==> exists i :: FirstWith(attrs.value, IsDataV, i) && r.value == attrs.value[i].name
    ensures r.Some? ==> Contains(r.value, "data-v-")
  {
    if attrs.None? then None
    else match FirstAttr(attrs.value, IsDataV)
      case None => None
      case Some(i) => Some(attrs.value[i].name)
  }

  /** `getPlaceholder`: `name='value'` of the first non-empty `placeholder` attribute, any case. */
  function GetPlaceholder(attrs: Option<seq<Attr>>): (r: Option<string>)
    ensures r.Some? <==> Has(attrs, IsPlaceholder)
    ensures r.Some? ==> exists i :: FirstWith(attrs.value, IsPlaceholder, i) && r.value == Equals(attrs.value[i])
  {
    if attrs.None? then None
    else match FirstAttr(attrs.value, IsPlaceholder)
      case None => None
      case Some(i) => Some(Equals(attrs.value[i]))
  }

  /** `getAlt`: `name='value'` of the first `alt` attribute, any case, even with an empty value. */
  function GetAlt(attrs: Option<seq<Attr>>): (r: Option<string>)
    ensures r.Some? <==> Has(attrs, IsAlt)
    ensures r.Some? ==> exists i :: FirstWith(attrs.value, IsAlt, i) && r.value == Equals(attrs.value[i])
  {
    if attrs.None? then None
    else match FirstAttr(attrs.value, IsAlt)
      case None => None
      case Some(i) => Some(Equals(attrs.value[i]))
  }

  /**
   * `getSrc`: for the first `src` attribute whose value does not start with
   * `data:image`, the prefix selector on its value cut after the first `?`.
   */
  function GetSrc(attrs: Option<seq<Attr>>): (r: Option<string>)
    ensures r.Some? <==> Has(attrs, IsSrc)
    ensures r.Some? ==> exists i ::
      (FirstWith(attrs.value, IsSrc, i) && r.value == StartsWith(attrs.value[i], CutAfter(attrs.value[i].value, "?")))
  {
    if attrs.None? then None
    else match FirstAttr(attrs.value, IsSrc)
      case None => None
      case Some(i) => Some(StartsWith(attrs.value[i], CutAfter(attrs.value[i].value, "?")))
  }

  /** `getOnClick`: the prefix selector on the first `onclick` attribute, its value cut after the first `(`. */
  function GetOnClick(attrs: Option<seq<Attr>>): (r: Option<string>)
    ensures r.Some? <==> Has(attrs, IsOnClick)
    ensures r.Some? ==> exists i ::
      (FirstWith(attrs.value, IsOnClick, i) && r.value == StartsWith(attrs.value[i], CutAfter(attrs.value[i].value, "(")))
  {
    if attrs.None? then None
    else match FirstAttr(attrs.value, IsOnClick)
      case None => None
      case Some(i) => Some(StartsWith(attrs.value[i], CutAfter(attrs.value[i].value, "(")))
  }

  /**
   * Cutting keeps a prefix of the value: the value itself when the mark does
   * not occur, otherwise the prefix that ends with the first occurrence of the
   * mark and holds no earlier one.
   */
  lemma CutAfterKeepsPrefix(value: string, c: string)
    ensures var r := CutAfter(value, c);
      && |r| <= |value| && r == value[..|r|]
      && (!Contains(value, c) ==> r == value)
      && (Contains(value, c) ==> OccursAt(r, c, |r| - |c|) && forall j :: 0 <= j < |r| - |c| ==> !OccursAt(r, c, j))
  {
    var r := CutAfter(value, c);
    var i := IndexOf(value, c);
    if i != -1 {
      forall j | 0 <= j < |r| - |c| ensures !OccursAt(r, c, j) {
        assert !OccursAt(value, c, j);
        assert r[j..j + |c|] == value[j..j + |c|];
      }
      assert r[|r| - |c|..] == value[i..i + |c|];
    }
  }

  /**
   * `getElementId`: an id is trusted when it is non-empty, does not contain
   * `exifviewer-img-` and has fewer than 40 characters.
   */
  function GetElementId(id: string): (r: bool)
    ensures r <==> id != "" && !Contains(id, "exifviewer-img-") && |id| < 40
  {
    id != "" && IndexOf(id, "exifviewer-img-") == -1 && |id| < 40
  }

  /** Attributes are scanned in order: a matching attribute earlier in the list always wins. */
  lemma {:induction false} FirstAttrPrefers(attrs: seq<Attr>, more: seq<Attr>, p: Attr -> bool)
    requires exists i :: 0 <= i < |attrs| && p(attrs[i])
    ensures FirstAttr(attrs + more, p) == FirstAttr(attrs, p)
  {
    if !p(attrs[0]) {
      assert (attrs + more)[1..] == attrs[1..] + more;
      var i :| 0 <= i < |attrs| && p(attrs[i]);
      assert 0 <= i - 1 < |attrs[1..]| && p(attrs[1..][i - 1]);
      FirstAttrPrefers(attrs[1..], more, p);
    }
  }
}
