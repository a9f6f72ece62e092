/**
 Widget templates and the overrides stored with view items: nested merge and difference of
 JSON objects, which must undo each other so that saved views hold overrides only.
 */
module TemplateOverrides {
  import opened Wrappers

  datatype Json =
    | Null
    | Bool(b: bool)
    | Number(n: real)
    | Text(s: string)
    | Array(items: seq<Json>)
    | Object(fields: Props)

  type Props = map<string, Json>

  // ---------------------------------------------------------------- merge and difference

  /** The template with the overrides laid over it; objects are merged key by key. */
  function Merge(template: Props, overrides: Props): (r: Props)
    ensures r.Keys == template.Keys + overrides.Keys
    decreases Object(overrides)
  {
    map k | k in template.Keys + overrides.Keys ::
      if k !in overrides then template[k]
      else if k in template && template[k].Object? && overrides[k].Object? then
        Object(Merge(template[k].fields, overrides[k].fields))
      else overrides[k]
  }

  /** The overrides a key contributes: what differs from the template there, or nothing. */
  function Override(value: Json, template: Props, key: string): Option<Json>
    decreases value, 1
  {
    if key !in template then Some(value)
    else if value.Object? && template[key].Object? then
      var nested := Extract(value.fields, template[key].fields);
      if nested == map[] then None else Some(Object(nested))
    else if value != template[key] then Some(value)
    else None
  }

  /** What has to be laid over the template to get the current properties. */
  function Extract(current: Props, template: Props): Props
    decreases Object(current), 0
  {
    map k | k in current && Override(current[k], template, k).Some? :: Override(current[k], template, k).value
  }

  /** The loop of the merge: overrides are taken in any order, each written once. */
  method MergeTemplateProps(template: Props, overrides: Props) returns (merged: Props)
    ensures merged == Merge(template, overrides)
    decreases Object(overrides)
  {
    merged := template;
    var rest := overrides.Keys;
    while rest != {}
      invariant rest <= overrides.Keys
      invariant merged == Merge(template, overrides - rest)
      decreases rest
    {
      var key :| key in rest;
      var value := overrides[key];
      var next := value;
      if key in merged && merged[key].Object? && value.Object? {
        var nested := MergeTemplateProps(merged[key].fields, value.fields);
        next := Object(nested);
      }
      MergeOneMore(template, overrides, rest, key);
      merged := merged[key := next];
      rest := rest - {key};
    }
    assert overrides - {} == overrides;
  }

  lemma MergeOneMore(template: Props, overrides: Props, rest: set<string>, key: string)
    requires key in rest && rest <= overrides.Keys
    ensures Merge(template, overrides - (rest - {key})) ==
      Merge(template, overrides - rest)[key :=
        if key in template && template[key].Object? && overrides[key].Object? then
          Object(Merge(template[key].fields, overrides[key].fields))
        else overrides[key]]
    ensures key in Merge(template, overrides - rest) <==> key in template
    ensures key in template ==> Merge(template, overrides - rest)[key] == template[key]
  {
  }

  method ExtractTemplateOverrides(current: Props, template: Props) returns (overrides: Props)
    ensures overrides == Extract(current, template)
    decreases Object(current)
  {
    overrides := map[];
    var rest := current.Keys;
    assert current - rest == map[];
    while rest != {}
      invariant rest <= current.Keys
      invariant overrides == Extract(current - rest, template)
      decreases rest
    {
      var key :| key in rest;
      var value := current[key];
      ExtractOneMore(current, template, rest, key);
      rest := rest - {key};
      if key !in template {
        overrides := overrides[key := value];
      } else if value.Object? && template[key].Object? {
        var nested := ExtractTemplateOverrides(value.fields, template[key].fields);
        if nested != map[] {
          overrides := overrides[key := Object(nested)];
        }
      } else if value != template[key] {
        overrides := overrides[key := value];
      }
    }
    assert current - {} == current;
  }

  lemma ExtractOneMore(current: Props, template: Props, rest: set<string>, key: string)
    requires key in rest && rest <= current.Keys
    ensures var before, after := Extract(current - rest, template), Extract(current - (rest - {key}), template);
      var o := Override(current[key], template, key);
      after == if o.Some? then before[key := o.value] else before
  {
  }

  // ---------------------------------------------------------------- the algebra

  /** A template holds no overrides over itself. */
  lemma {:induction false} ExtractSelf(template: Props)
    ensures Extract(template, template) == map[]
    decreases Object(template)
  {
    forall k | k in template ensures Override(template[k], template, k) == None {
      if template[k].Object? {
        ExtractSelf(template[k].fields);
      }
    }
  }

  lemma MergeNothing(template: Props)
    ensures Merge(template, map[]) == template
  {
  }

  /** Laying the difference over the template gives what laying everything over it gives. */
  lemma {:induction false} MergeOfExtract(current: Props, template: Props)
    ensures Merge(template, Extract(current, template)) == Merge(template, current)
    decreases Object(current)
  {
    var m, n := Merge(template, Extract(current, template)), Merge(template, current);
    forall k | k in template.Keys + current.Keys ensures k in m && m[k] == n[k] {
      if k in template && k in current && template[k].Object? && current[k].Object? {
        MergeOfExtract(current[k].fields, template[k].fields);
        MergeNothing(template[k].fields);
      }
    }
  }

  /** The difference of a merge is the difference of the overrides: merging adds no override. */
  lemma {:induction false} ExtractOfMerge(template: Props, overrides: Props)
    ensures Extract(Merge(template, overrides), template) == Extract(overrides, template)
    decreases Object(overrides)
  {
    var merged := Merge(template, overrides);
    forall k | k in merged
      ensures Override(merged[k], template, k) == if k in overrides then Override(overrides[k], template, k) else None
    {
      if k !in overrides {
        if template[k].Object? {
          ExtractSelf(template[k].fields);
        }
      } else if k in template && template[k].Object? && overrides[k].Object? {
        ExtractOfMerge(template[k].fields, overrides[k].fields);
      }
    }
  }

  /** Overrides are their own difference: storing them again changes nothing. */
  lemma {:induction false} ExtractTwice(current: Props, template: Props)
    ensures Extract(Extract(current, template), template) == Extract(current, template)
    decreases Object(current)
  {
    var e := Extract(current, template);
    forall k | k in e ensures Override(e[k], template, k) == Some(e[k]) {
      if k in template && current[k].Object? && template[k].Object? {
        ExtractTwice(current[k].fields, template[k].fields);
      }
    }
  }

  // ---------------------------------------------------------------- what a reader of the merged properties sees

  /** The value at a path of keys. */
  function At(p: Props, path: seq<string>): Option<Json>
    requires path != []
    decreases |path|
  {
    if path[0] !in p then None
    else if |path| == 1 then Some(p[path[0]])
    else if p[path[0]].Object? then At(p[path[0]].fields, path[1..])
    else None
  }

  /** On the way along the path, or at its end, the overrides set a value that is not an object. */
  predicate SetsLeaf(overrides: Props, path: seq<string>)
    requires path != []
    decreases |path|
  {
    && path[0] in overrides
    && (!overrides[path[0]].Object? || (|path| > 1 && SetsLeaf(overrides[path[0]].fields, path[1..])))
  }

  /** The overrides leave the path before they set anything on it. */
  predicate Untouched(overrides: Props, path: seq<string>)
    requires path != []
    decreases |path|
  {
    || path[0] !in overrides
    || (overrides[path[0]].Object? && |path| > 1 && Untouched(overrides[path[0]].fields, path[1..]))
  }

  /**
   Reading through paths: where the overrides set a leaf, they decide; where they set nothing,
   the template shows through, whatever template it is.
   */
  lemma {:induction false} ReadMerged(template: Props, overrides: Props, path: seq<string>)
    requires path != []
    ensures SetsLeaf(overrides, path) ==> At(Merge(template, overrides), path) == At(overrides, path)
    ensures Untouched(overrides, path) ==> At(Merge(template, overrides), path) == At(template, path)
    decreases |path|
  {
    var k := path[0];
    if |path| > 1 && k in overrides && overrides[k].Object? {
      if Untouched(overrides[k].fields, path[1..]) {
        ReadAlone(overrides[k].fields, path[1..]);
      }
      if k in template && template[k].Object? {
        ReadMerged(template[k].fields, overrides[k].fields, path[1..]);
      }
    }
  }

  lemma {:induction false} ReadAlone(overrides: Props, path: seq<string>)
    requires path != [] && Untouched(overrides, path)
    ensures At(overrides, path) == None
    decreases |path|
  {
    if path[0] in overrides {
      ReadAlone(overrides[path[0]].fields, path[1..]);
    }
  }

  /** At the path stands this value, which is no object. */
  ghost predicate Leaf(p: Props, path: seq<string>, v: Json)
    requires path != []
  {
    At(p, path) == Some(v) && !v.Object?
  }

  /** At the path stands an object. */
  ghost predicate Branch(p: Props, path: seq<string>)
    requires path != []
  {
    At(p, path).Some? && At(p, path).value.Object?
  }

  lemma {:induction false} UntouchedIsAbsent(overrides: Props, path: seq<string>)
    requires path != [] && Untouched(overrides, path)
    ensures At(overrides, path) == None && !SetsLeaf(overrides, path)
    decreases |path|
  {
    if path[0] in overrides {
      UntouchedIsAbsent(overrides[path[0]].fields, path[1..]);
    }
  }

  /** A path ends on an object of the overrides, or meets a leaf of them, or leaves them before. */
  lemma {:induction false} ThreeWays(overrides: Props, path: seq<string>)
    requires path != [] && !Untouched(overrides, path)
    ensures SetsLeaf(overrides, path) <==> !Branch(overrides, path)
    decreases |path|
  {
    if |path| > 1 && path[0] in overrides && overrides[path[0]].Object? {
      ThreeWays(overrides[path[0]].fields, path[1..]);
    }
  }

  /**
   The merge, read path by path: a leaf is one of the overrides, or one of the template that
   the overrides leave alone; an object stands where one of the two has one, likewise.
   */
  lemma {:induction false} MergeExactly(template: Props, overrides: Props, path: seq<string>, v: Json)
    requires path != []
    ensures Leaf(Merge(template, overrides), path, v) <==>
      Leaf(overrides, path, v) || (Untouched(overrides, path) && Leaf(template, path, v))
    ensures Branch(Merge(template, overrides), path) <==>
      Branch(overrides, path) || (Untouched(overrides, path) && Branch(template, path))
    decreases |path|
  {
    var k, rest := path[0], path[1..];
    if |path| > 1 && k in overrides && overrides[k].Object? {
      if Untouched(overrides[k].fields, rest) {
        UntouchedIsAbsent(overrides[k].fields, rest);
      }
      if k in template && template[k].Object? {
        MergeExactly(template[k].fields, overrides[k].fields, rest, v);
      }
    }
  }

  lemma {:induction false} ExtractedLeaf(current: Props, template: Props, path: seq<string>, v: Json)
    requires path != []
    ensures Leaf(Extract(current, template), path, v) <==> Leaf(current, path, v) && !Leaf(template, path, v)
    decreases |path|
  {
    var k, rest := path[0], path[1..];
    if |path| > 1 && k in current && current[k].Object? && k in template && template[k].Object? {
      ExtractedLeaf(current[k].fields, template[k].fields, rest, v);
    }
  }

  lemma {:induction false} ExtractedBranch(current: Props, template: Props, path: seq<string>)
    requires path != []
    ensures Branch(Extract(current, template), path) ==> Branch(current, path)
    ensures Branch(Extract(current, template), path) && Branch(template, path) ==>
      At(Extract(current, template), path) != Some(Object(map[]))
    ensures Branch(current, path) && !Branch(template, path) ==> Branch(Extract(current, template), path)
    decreases |path|
  {
    var k, rest := path[0], path[1..];
    var e := Extract(current, template);
    if k in current {
      var o := Override(current[k], template, k);
      assert k in e <==> o.Some?;
    }
    if k in current && current[k].Object? && k in template && template[k].Object? {
      var nested := Extract(current[k].fields, template[k].fields);
      assert k in e <==> nested != map[];
      assert k in e ==> e[k] == Object(nested);
      if |path| > 1 {
        ExtractedBranch(current[k].fields, template[k].fields, rest);
        assert At(map[], rest) == None;
      }
    } else {
      assert k in e ==> k in current && e[k] == current[k];
      assert k in current && current[k].Object? ==> k in e;
    }
  }

  /**
   The difference, read path by path: its leaves are exactly those of the current properties
   that the template does not have there; its objects are objects of the current properties,
   all those that the template lacks, and none that is empty where the template has one.
   */
  lemma ExtractExactly(current: Props, template: Props, path: seq<string>, v: Json)
    requires path != []
    ensures var e := Extract(current, template);
      && (Leaf(e, path, v) <==> Leaf(current, path, v) && !Leaf(template, path, v))
      && (Branch(e, path) ==> Branch(current, path))
      && (Branch(e, path) && Branch(template, path) ==> At(e, path) != Some(Object(map[])))
      && (Branch(current, path) && !Branch(template, path) ==> Branch(e, path))
  {
    hide *;
    ExtractedLeaf(current, template, path, v);
    ExtractedBranch(current, template, path);
  }

  /** What is not overridden follows the template: its next version is seen unchanged. */
  lemma FollowsTemplate(current: Props, former: Props, later: Props, path: seq<string>)
    requires path != [] && Untouched(Extract(current, former), path)
    ensures At(Merge(later, Extract(current, former)), path) == At(later, path)
  {
    ReadMerged(later, Extract(current, former), path);
  }

  // ---------------------------------------------------------------- views

  datatype Item = Item(id: string, sourceId: string, templateId: string, props: Props)

  datatype View = View(id: string, items: seq<Item>)

  /** Sources by id, with the integration each belongs to, and each integration's templates by id. */
  datatype Catalog = Catalog(integrationOf: map<string, string>, templates: map<string, map<string, Props>>)

  function TemplateOf(item: Item, catalog: Catalog): Option<Props> {
    if item.sourceId !in catalog.integrationOf then None
    else
      var integration := catalog.integrationOf[item.sourceId];
      if integration !in catalog.templates || item.templateId !in catalog.templates[integration] then None
      else Some(catalog.templates[integration][item.templateId])
  }

  /** Old items stored the whole template: its id, and a type. */
  predicate IsLegacySnapshot(item: Item, props: Props) {
    "id" in props && props["id"] == Text(item.templateId) && "type" in props
  }

  function RawProps(item: Item): Props {
    if IsLegacySnapshot(item, item.props) then map[] else item.props
  }

  function InjectItem(item: Item, catalog: Catalog): Item {
    match TemplateOf(item, catalog)
    case None => item
    case Some(template) => item.(props := Merge(template, RawProps(item)))
  }

  function NormalizeItem(item: Item, catalog: Catalog): Item {
    match TemplateOf(item, catalog)
    case None => item
    case Some(template) => item.(props := Extract(RawProps(item), template))
  }

  /** The view as it is shown. */
  function Inject(view: View, catalog: Catalog): View {
    view.(items := seq(|view.items|, i requires 0 <= i < |view.items| => InjectItem(view.items[i], catalog)))
  }

  /** The view as it is stored. */
  function Normalize(view: View, catalog: Catalog): View {
    view.(items := seq(|view.items|, i requires 0 <= i < |view.items| => NormalizeItem(view.items[i], catalog)))
  }

  /** The template of an item: the one with its template id, among those of the integration of its source. */
  ghost predicate HasTemplate(item: Item, catalog: Catalog, template: Props) {
    exists integration ::
      && item.sourceId in catalog.integrationOf && catalog.integrationOf[item.sourceId] == integration
      && integration in catalog.templates && item.templateId in catalog.templates[integration]
      && catalog.templates[integration][item.templateId] == template
  }

  /** Stored as a whole template: with the template's id as its own, and a type. */
  ghost predicate Snapshot(item: Item) {
    "id" in item.props && item.props["id"] == Text(item.templateId) && "type" in item.props
  }

  lemma TemplateExactly(item: Item, catalog: Catalog, template: Props)
    ensures TemplateOf(item, catalog) == Some(template) <==> HasTemplate(item, catalog, template)
  {
  }

  /** How an item is shown and stored: merged with its template and reduced to what differs, snapshots as if they had no properties. */
  lemma ItemExactly(item: Item, catalog: Catalog, template: Props)
    requires HasTemplate(item, catalog, template)
    ensures InjectItem(item, catalog) == item.(props := if Snapshot(item) then template else Merge(template, item.props))
    ensures NormalizeItem(item, catalog) == item.(props := if Snapshot(item) then map[] else Extract(item.props, template))
  {
    TemplateExactly(item, catalog, template);
    MergeNothing(template);
    assert Extract(map[], template) == map[];
    hide Merge, Extract;
  }

  /** An item without template is left alone. */
  lemma OtherItemExactly(item: Item, catalog: Catalog)
    requires forall template :: !HasTemplate(item, catalog, template)
    ensures InjectItem(item, catalog) == item == NormalizeItem(item, catalog)
  {
    var t := TemplateOf(item, catalog);
    if t.Some? {
      TemplateExactly(item, catalog, t.value);
    }
  }

  method InjectViewItemProps(view: View, catalog: Catalog) returns (r: View)
    ensures r == Inject(view, catalog)
  {
    hide Merge;
    var hydrated: seq<Item> := [];
    for i := 0 to |view.items|
      invariant |hydrated| == i
      invariant forall j :: 0 <= j < i ==> hydrated[j] == InjectItem(view.items[j], catalog)
    {
      var item := view.items[i];
      var template := TemplateOf(item, catalog);
      if template.None? {
        hydrated := hydrated + [item];
      } else {
        var raw := item.props;
        if IsLegacySnapshot(item, raw) {
          raw := map[];
        }
        var merged := MergeTemplateProps(template.value, raw);
        hydrated := hydrated + [item.(props := merged)];
      }
    }
    r := view.(items := hydrated);
  }

  method NormalizeViewItemProps(view: View, catalog: Catalog) returns (r: View)
    ensures r == Normalize(view, catalog)
  {
    hide Extract;
    var normalized: seq<Item> := [];
    for i := 0 to |view.items|
      invariant |normalized| == i
      invariant forall j :: 0 <= j < i ==> normalized[j] == NormalizeItem(view.items[j], catalog)
    {
      var item := view.items[i];
      var template := TemplateOf(item, catalog);
      if template.None? {
        normalized := normalized + [item];
      } else {
        var raw := item.props;
        if IsLegacySnapshot(item, raw) {
          raw := map[];
        }
        var overrides := ExtractTemplateOverrides(raw, template.value);
        normalized := normalized + [item.(props := overrides)];
      }
    }
    r := view.(items := normalized);
  }

  /** The overrides of an item never look like an old snapshot themselves. */
  lemma OverridesAreNoSnapshot(item: Item, template: Props)
    ensures !IsLegacySnapshot(item, Extract(RawProps(item), template))
  {
    var raw := RawProps(item);
    var overrides := Extract(raw, template);
    if "id" in overrides && overrides["id"] == Text(item.templateId) {
      assert Override(raw["id"], template, "id") == Some(overrides["id"]);
      assert raw["id"] == overrides["id"];
      assert "type" in overrides ==> "type" in raw;
    }
  }

  lemma NormalizeThenInjectItem(item: Item, catalog: Catalog)
    ensures InjectItem(NormalizeItem(item, catalog), catalog) == InjectItem(item, catalog)
    ensures NormalizeItem(NormalizeItem(item, catalog), catalog) == NormalizeItem(item, catalog)
  {
    var template := TemplateOf(item, catalog);
    if template.Some? {
      hide Merge, Extract;
      OverridesAreNoSnapshot(item, template.value);
      MergeOfExtract(RawProps(item), template.value);
      ExtractTwice(RawProps(item), template.value);
    }
  }

  /** Storing loses nothing that is shown: a view looks the same after it was stored. No assumption on template ids is needed. */
  lemma StoredViewLooksTheSame(view: View, catalog: Catalog)
    ensures Inject(Normalize(view, catalog), catalog) == Inject(view, catalog)
    ensures Normalize(Normalize(view, catalog), catalog) == Normalize(view, catalog)
  {
    hide InjectItem, NormalizeItem;
    forall i | 0 <= i < |view.items|
      ensures InjectItem(NormalizeItem(view.items[i], catalog), catalog) == InjectItem(view.items[i], catalog)
      ensures NormalizeItem(NormalizeItem(view.items[i], catalog), catalog) == NormalizeItem(view.items[i], catalog)
    {
      NormalizeThenInjectItem(view.items[i], catalog);
    }
  }

  /**
   Storing what is shown. An item that is shown and stored again keeps its overrides exactly
   when the shown properties do not pass for an old snapshot, or there were no overrides to lose.
   */
  lemma ShownItemStoredAgain(item: Item, catalog: Catalog)
    requires TemplateOf(item, catalog).Some?
    ensures var shown := InjectItem(item, catalog);
      NormalizeItem(shown, catalog) == NormalizeItem(item, catalog) <==>
      !IsLegacySnapshot(item, shown.props) || Extract(RawProps(item), TemplateOf(item, catalog).value) == map[]
  {
    var template := TemplateOf(item, catalog).value;
    ExtractOfMerge(template, RawProps(item));
    assert Extract(map[], template) == map[];
    hide Merge, Extract;
  }

  /** Such an item: any template with its own id and a type, and one override, which is lost. */
  lemma OverrideLost()
    ensures var template: Props := map["id" := Text("t"), "type" := Text("List")];
      var catalog := Catalog(map["s" := "i"], map["i" := map["t" := template]]);
      var item := Item("w", "s", "t", map["title" := Text("Mine")]);
      && NormalizeItem(item, catalog).props == map["title" := Text("Mine")]
      && NormalizeItem(InjectItem(item, catalog), catalog).props == map[]
  {
    var template: Props := map["id" := Text("t"), "type" := Text("List")];
    var catalog := Catalog(map["s" := "i"], map["i" := map["t" := template]]);
    var item := Item("w", "s", "t", map["title" := Text("Mine")]);
    assert catalog.templates["i"]["t"] == template;
    var e := Extract(item.props, template);
    assert Override(item.props["title"], template, "title") == Some(Text("Mine"));
    assert "title" in e && e.Keys == {"title"};
    assert e == map["title" := Text("Mine")];
    assert !IsLegacySnapshot(item, item.props);
    var shown := InjectItem(item, catalog);
    assert shown.props["id"] == Text("t") && "type" in shown.props;
    assert Extract(map[], template) == map[];
  }
}
