/**
 * Building a theme from a base16 palette. Each colour of the theme is taken
 * from the caller's overrides when given, and otherwise from a fixed slot
 * of the palette; the three copies of the builder differ only in which
 * slots they use and which keys they produce:
 *   - `themeColorsFromBase16` in app/theme/src/Theme.ts;
 *   - `themeFromBase16` in app/src/theme.ts, without `deemphasis` and `selection`;
 *   - `themeFromBase16` in ui/src/renderer/ui/Theme/index.ts, which also sets
 *     `windowRounding`.
 * Every leaf path of the theme schema then becomes a CSS variable named
 * "--theme-" followed by the path's keys joined with "-".
 */
module ThemeColors {
  import opened Wrappers
  import opened ThemePaths
  import opened ZodPaths

  /** The sixteen palette slots, `base00` to `base0F`. */
  datatype Slot =
    | Base00 | Base01 | Base02 | Base03 | Base04 | Base05 | Base06 | Base07
    | Base08 | Base09 | Base0A | Base0B | Base0C | Base0D | Base0E | Base0F

  datatype Base16 = Base16(
    base00: string, base01: string, base02: string, base03: string,
    base04: string, base05: string, base06: string, base07: string,
    base08: string, base09: string, base0A: string, base0B: string,
    base0C: string, base0D: string, base0E: string, base0F: string)

  function SlotColor(b: Base16, s: Slot): string {
    match s
    case Base00 => b.base00 case Base01 => b.base01 case Base02 => b.base02 case Base03 => b.base03
    case Base04 => b.base04 case Base05 => b.base05 case Base06 => b.base06 case Base07 => b.base07
    case Base08 => b.base08 case Base09 => b.base09 case Base0A => b.base0A case Base0B => b.base0B
    case Base0C => b.base0C case Base0D => b.base0D case Base0E => b.base0E case Base0F => b.base0F
  }

  /** Absent, `null` or `undefined`: what `??` replaces. */
  predicate Nullish(r: Option<Value>) {
    r.None? || r.value.Null? || r.value.Undefined?
  }

  /** `overrides?.k1?.k2 ?? fallback`. */
  function Pick(overrides: Value, path: seq<string>, fallback: Value): (r: Value)
    ensures Nullish(Lookup(overrides, path)) ==> r == fallback
    ensures !Nullish(Lookup(overrides, path)) ==> Some(r) == Lookup(overrides, path)
  {
    var o := Lookup(overrides, path);
    if Nullish(o) then fallback else o.value
  }

  /** How one copy of the builder lays out the theme. */
  datatype Plan = Plan(
    deemphasis: bool,      // produces `deemphasis` and `selection`
    dropTarget: Slot,      // default of the drop-target tab background
    iconBase: Slot,        // default stroke of the base icon
    rounding: bool)        // sets `windowRounding: "large"`

  /** `themeColorsFromBase16` (app/theme/src/Theme.ts). */
  const ThemePackage := Plan(true, Base03, Base04, false)
  /** `themeFromBase16` (app/src/theme.ts). */
  const FirstApp := Plan(false, Base07, Base05, false)
  /** `themeFromBase16` (ui/src/renderer/ui/Theme/index.ts). */
  const UiApp := Plan(true, Base03, Base04, true)

  /**
   * `autoIcon(stroke, fill)`: the fill as given, or else one derived from the
   * stroke by the colour library, which is the parameter `fade` here.
   */
  function AutoIcon(stroke: Value, fill: Option<Value>, fade: Value -> Value): (r: Value)
    ensures Lookup(r, ["stroke"]) == Some(stroke)
    ensures Lookup(r, ["fill"]) == Some(if Nullish(fill) then fade(stroke) else fill.value)
  {
    Obj([Field("stroke", stroke), Field("fill", if Nullish(fill) then fade(stroke) else fill.value)])
  }

  /** `panel.tab.background`. */
  function TabBackground(plan: Plan, b: Base16, o: Value): Value {
    Obj([
      Field("idle", Pick(o, ["panel", "tab", "background", "idle"], Str(b.base00))),
      Field("active", Pick(o, ["panel", "tab", "background", "active"], Str(b.base01))),
      Field("dropTarget", Pick(o, ["panel", "tab", "background", "dropTarget"], Str(SlotColor(b, plan.dropTarget))))])
  }

  /** `icon`: the base and active icons, each through `autoIcon`. */
  function Icons(plan: Plan, b: Base16, o: Value, fade: Value -> Value): Value {
    Obj([
      Field("base", AutoIcon(Pick(o, ["icon", "base", "stroke"], Str(SlotColor(b, plan.iconBase))),
                             Lookup(o, ["icon", "base", "fill"]), fade)),
      Field("active", AutoIcon(Pick(o, ["icon", "active", "stroke"], Str(b.base06)),
                               Lookup(o, ["icon", "active", "fill"]), fade))])
  }

  /** Every top-level key any copy writes, in the order the copies write them. */
  const TopKeys: seq<string> :=
    ["background", "text", "deemphasis", "selection", "border", "panel", "icon", "statusbar", "colors", "windowRounding"]

  lemma TopKeysDistinct()
    ensures forall p, q | 0 <= p < q < |TopKeys| :: TopKeys[p] != TopKeys[q]
  {
  }

  /** The palette slots of the first five keys of `TopKeys`, which hold a colour each. */
  const ScalarSlots: seq<Slot> := [Base00, Base05, Base04, Base02, Base02]

  /** The value the builder writes under `TopKeys[pos]`. */
  function TopValue(plan: Plan, b: Base16, colors: Value, o: Value, fade: Value -> Value, pos: nat): Value {
    if pos < 5 then Pick(o, [TopKeys[pos]], Str(SlotColor(b, ScalarSlots[pos])))
    else if pos == 5 then Obj([Field("tab", Obj([Field("background", TabBackground(plan, b, o))]))])
    else if pos == 6 then Icons(plan, b, o, fade)
    else if pos == 7 then Obj([Field("background", Pick(o, ["statusbar", "background"], Str(b.base01)))])
    else if pos == 8 then colors
    else Str("large")
  }

  /** How many top-level keys a copy writes. */
  function FieldCount(plan: Plan): nat {
    (if plan.deemphasis then 9 else 7) + (if plan.rounding then 1 else 0)
  }

  /** The place among `TopKeys` of the `j`-th key a copy writes: without `deemphasis` two places are skipped. */
  function TopPos(plan: Plan, j: nat): nat {
    if !plan.deemphasis && j >= 2 then j + 2 else j
  }

  /** Whether a copy writes the key `TopKeys[pos]`. */
  predicate Writes(plan: Plan, pos: nat) {
    pos < |TopKeys| && (plan.deemphasis || pos < 2 || 4 <= pos) && (plan.rounding || pos < 9)
  }

  /**
   * The top-level fields, in the order the builder writes them: the keys of
   * `TopKeys` this copy writes, each with its value.
   */
  function ThemeFields(plan: Plan, b: Base16, colors: Value, o: Value, fade: Value -> Value): (fs: seq<Field>)
    ensures |fs| == FieldCount(plan)
    ensures forall j | 0 <= j < |fs| :: Writes(plan, TopPos(plan, j)) && fs[j].key == TopKeys[TopPos(plan, j)]
    ensures forall j | 0 <= j < |fs| :: fs[j].value == TopValue(plan, b, colors, o, fade, TopPos(plan, j))
  {
    seq(FieldCount(plan), j requires 0 <= j < FieldCount(plan) =>
      Field(TopKeys[TopPos(plan, j)], TopValue(plan, b, colors, o, fade, TopPos(plan, j))))
  }

  /** The builder: palette `b`, colour set `colors`, caller's `overrides`. */
  function Build(plan: Plan, b: Base16, colors: Value, overrides: Value, fade: Value -> Value): Value {
    Obj(ThemeFields(plan, b, colors, overrides, fade))
  }

  /** The colour paths every copy defaults, with the slot it falls back to. */
  function Defaults(plan: Plan): seq<(seq<string>, Slot)> {
    TopDefaults(plan) + NestedDefaults(plan)
  }

  /** The defaulted top-level colours. */
  function TopDefaults(plan: Plan): seq<(seq<string>, Slot)> {
    [(["background"], Base00), (["text"], Base05)]
    + (if plan.deemphasis then [(["deemphasis"], Base04), (["selection"], Base02)] else [])
    + [(["border"], Base02)]
  }

  /** The defaulted colours below the top level. */
  function NestedDefaults(plan: Plan): seq<(seq<string>, Slot)> {
    [(["panel", "tab", "background", "idle"], Base00),
     (["panel", "tab", "background", "active"], Base01),
     (["panel", "tab", "background", "dropTarget"], plan.dropTarget),
     (["icon", "base", "stroke"], plan.iconBase),
     (["icon", "active", "stroke"], Base06),
     (["statusbar", "background"], Base01)]
  }

  /** The first field with the key decides a lookup. */
  lemma {:induction false} GetFirst(fields: seq<Field>, i: nat, k: string)
    requires i < |fields| && fields[i].key == k
    requires forall j | 0 <= j < i :: fields[j].key != k
    ensures Get(fields, k) == Some(fields[i].value)
  {
    if i > 0 {
      GetFirst(fields[1..], i - 1, k);
    }
  }

  /**
   * Fields whose keys are drawn, in increasing places `pos(j)`, from a list
   * of distinct keys are found by key.
   */
  lemma FirstInOrder(fs: seq<Field>, keys: seq<string>, pos: nat -> nat, i: nat)
    requires forall p, q | 0 <= p < q < |keys| :: keys[p] != keys[q]
    requires forall j | 0 <= j < |fs| :: pos(j) < |keys| && fs[j].key == keys[pos(j)]
    requires forall j, k | 0 <= j < k < |fs| :: pos(j) < pos(k)
    requires i < |fs|
    ensures Get(fs, fs[i].key) == Some(fs[i].value)
  {
    forall j | 0 <= j < i
      ensures fs[j].key != fs[i].key
    {
      assert pos(j) < pos(i);
    }
    GetFirst(fs, i, fs[i].key);
  }

  /** The builder's field under a key the copy writes is that key's value. */
  lemma BuildGet(plan: Plan, b: Base16, colors: Value, o: Value, fade: Value -> Value, pos: nat)
    requires Writes(plan, pos)
    ensures Get(ThemeFields(plan, b, colors, o, fade), TopKeys[pos]) == Some(TopValue(plan, b, colors, o, fade, pos))
  {
    var fs := ThemeFields(plan, b, colors, o, fade);
    var i := if !plan.deemphasis && pos >= 4 then pos - 2 else pos;
    assert i < |fs| && TopPos(plan, i) == pos;
    TopKeysDistinct();
    FirstInOrder(fs, TopKeys, j => TopPos(plan, j), i);
  }

  /** Looking up under a key the copy writes is looking up in that key's value. */
  lemma BuildStep(plan: Plan, b: Base16, colors: Value, o: Value, fade: Value -> Value, pos: nat, path: seq<string>)
    requires Writes(plan, pos) && |path| > 0 && path[0] == TopKeys[pos]
    ensures Lookup(Build(plan, b, colors, o, fade), path) == Lookup(TopValue(plan, b, colors, o, fade, pos), path[1..])
  {
    BuildGet(plan, b, colors, o, fade, pos);
  }

  /** The defaulted colour at `path` reads the override there, or else its palette slot. */
  predicate Defaulted(t: Value, o: Value, b: Base16, path: seq<string>, slot: Slot) {
    Lookup(t, path) == Some(Pick(o, path, Str(SlotColor(b, slot))))
  }

  lemma ScalarDefault(plan: Plan, b: Base16, colors: Value, o: Value, fade: Value -> Value, pos: nat, slot: Slot)
    requires pos < 5 && Writes(plan, pos) && slot == ScalarSlots[pos]
    ensures Defaulted(Build(plan, b, colors, o, fade), o, b, [TopKeys[pos]], slot)
  {
    BuildStep(plan, b, colors, o, fade, pos, [TopKeys[pos]]);
  }

  lemma TabLookup(plan: Plan, b: Base16, o: Value, leaf: string, slot: Slot)
    requires (leaf, slot) in [("idle", Base00), ("active", Base01), ("dropTarget", plan.dropTarget)]
    ensures Lookup(TabBackground(plan, b, o), [leaf]) == Some(Pick(o, ["panel", "tab", "background", leaf], Str(SlotColor(b, slot))))
  {
    var fs := TabBackground(plan, b, o).fields;
    if leaf == "idle" {
      assert Get(fs, leaf) == Some(fs[0].value);
    } else if leaf == "active" {
      assert Get(fs, leaf) == Some(fs[1].value);
    } else {
      assert Get(fs, leaf) == Some(fs[2].value);
    }
  }

  lemma PanelDefault(plan: Plan, b: Base16, colors: Value, o: Value, fade: Value -> Value, leaf: string, slot: Slot)
    requires (leaf, slot) in [("idle", Base00), ("active", Base01), ("dropTarget", plan.dropTarget)]
    ensures Defaulted(Build(plan, b, colors, o, fade), o, b, ["panel", "tab", "background", leaf], slot)
  {
    var path := ["panel", "tab", "background", leaf];
    var tabs := TabBackground(plan, b, o);
    var panel := Obj([Field("tab", Obj([Field("background", tabs)]))]);
    BuildStep(plan, b, colors, o, fade, 5, path);
    assert Lookup(panel, path[1..]) == Lookup(panel.fields[0].value, path[2..]);
    assert Lookup(panel.fields[0].value, path[2..]) == Lookup(tabs, path[3..]);
    assert path[3..] == [leaf];
    TabLookup(plan, b, o, leaf, slot);
  }

  /** A two-key lookup through a field found by its key. */
  lemma LookupTwo(fs: seq<Field>, which: string, part: string, v: Value)
    requires Get(fs, which) == Some(v)
    ensures Lookup(Obj(fs), [which, part]) == Lookup(v, [part])
  {
    assert [which, part][1..] == [part];
  }

  lemma IconBasePart(plan: Plan, b: Base16, o: Value, fade: Value -> Value, part: string)
    ensures Lookup(Icons(plan, b, o, fade), ["base", part]) ==
      Lookup(AutoIcon(Pick(o, ["icon", "base", "stroke"], Str(SlotColor(b, plan.iconBase))),
                      Lookup(o, ["icon", "base", "fill"]), fade), [part])
  {
    var icon := AutoIcon(Pick(o, ["icon", "base", "stroke"], Str(SlotColor(b, plan.iconBase))),
                         Lookup(o, ["icon", "base", "fill"]), fade);
    var fs := Icons(plan, b, o, fade).fields;
    assert fs[0] == Field("base", icon);
    LookupTwo(fs, "base", part, icon);
  }

  lemma IconActivePart(plan: Plan, b: Base16, o: Value, fade: Value -> Value, part: string)
    ensures Lookup(Icons(plan, b, o, fade), ["active", part]) ==
      Lookup(AutoIcon(Pick(o, ["icon", "active", "stroke"], Str(SlotColor(b, Base06))),
                      Lookup(o, ["icon", "active", "fill"]), fade), [part])
  {
    var icon := AutoIcon(Pick(o, ["icon", "active", "stroke"], Str(SlotColor(b, Base06))),
                         Lookup(o, ["icon", "active", "fill"]), fade);
    var fs := Icons(plan, b, o, fade).fields;
    assert fs == [fs[0], Field("active", icon)] && fs[0].key != "active";
    LookupTwo(fs, "active", part, icon);
  }

  lemma IconPart(plan: Plan, b: Base16, o: Value, fade: Value -> Value, which: string, part: string)
    requires which == "base" || which == "active"
    ensures Lookup(Icons(plan, b, o, fade), [which, part]) ==
      Lookup(AutoIcon(Pick(o, ["icon", which, "stroke"], Str(SlotColor(b, if which == "base" then plan.iconBase else Base06))),
                      Lookup(o, ["icon", which, "fill"]), fade), [part])
  {
    if which == "base" {
      IconBasePart(plan, b, o, fade, part);
    } else {
      IconActivePart(plan, b, o, fade, part);
    }
  }

  /** The icon called `which`, with the slot its stroke falls back to. */
  lemma IconLookup(plan: Plan, b: Base16, colors: Value, o: Value, fade: Value -> Value, which: string, part: string)
    requires which == "base" || which == "active"
    ensures Lookup(Build(plan, b, colors, o, fade), ["icon", which, part]) ==
      Lookup(AutoIcon(Pick(o, ["icon", which, "stroke"], Str(SlotColor(b, if which == "base" then plan.iconBase else Base06))),
                      Lookup(o, ["icon", which, "fill"]), fade), [part])
  {
    var path := ["icon", which, part];
    BuildStep(plan, b, colors, o, fade, 6, path);
    assert path[1..] == [which, part];
    IconPart(plan, b, o, fade, which, part);
  }

  lemma IconDefault(plan: Plan, b: Base16, colors: Value, o: Value, fade: Value -> Value, which: string, slot: Slot)
    requires (which, slot) in [("base", plan.iconBase), ("active", Base06)]
    ensures Defaulted(Build(plan, b, colors, o, fade), o, b, ["icon", which, "stroke"], slot)
  {
    IconLookup(plan, b, colors, o, fade, which, "stroke");
  }

  lemma StatusbarDefault(plan: Plan, b: Base16, colors: Value, o: Value, fade: Value -> Value)
    ensures Defaulted(Build(plan, b, colors, o, fade), o, b, ["statusbar", "background"], Base01)
  {
    var path := ["statusbar", "background"];
    BuildStep(plan, b, colors, o, fade, 7, path);
    assert path[1..] == ["background"];
  }

  /**
   * Every defaulted colour reads the override at its path when one is given
   * (not null or undefined), and otherwise its palette slot.
   */
  lemma BuildDefaults(plan: Plan, b: Base16, colors: Value, overrides: Value, fade: Value -> Value, i: nat)
    requires i < |Defaults(plan)|
    ensures Defaulted(Build(plan, b, colors, overrides, fade), overrides, b, Defaults(plan)[i].0, Defaults(plan)[i].1)
  {
    var n := |TopDefaults(plan)|;
    if i < n {
      TopDefaulted(plan, b, colors, overrides, fade, i);
    } else {
      NestedDefaulted(plan, b, colors, overrides, fade, i - n);
    }
  }

  lemma TopDefaulted(plan: Plan, b: Base16, colors: Value, o: Value, fade: Value -> Value, i: nat)
    requires i < |TopDefaults(plan)|
    ensures Defaulted(Build(plan, b, colors, o, fade), o, b, TopDefaults(plan)[i].0, TopDefaults(plan)[i].1)
  {
    var pos := TopPos(plan, i);
    assert TopDefaults(plan)[i] == ([TopKeys[pos]], ScalarSlots[pos]);
    ScalarDefault(plan, b, colors, o, fade, pos, ScalarSlots[pos]);
  }

  lemma NestedDefaulted(plan: Plan, b: Base16, colors: Value, o: Value, fade: Value -> Value, i: nat)
    requires i < |NestedDefaults(plan)|
    ensures Defaulted(Build(plan, b, colors, o, fade), o, b, NestedDefaults(plan)[i].0, NestedDefaults(plan)[i].1)
  {
    if i == 0 {
      PanelDefault(plan, b, colors, o, fade, "idle", Base00);
    } else if i == 1 {
      PanelDefault(plan, b, colors, o, fade, "active", Base01);
    } else if i == 2 {
      PanelDefault(plan, b, colors, o, fade, "dropTarget", plan.dropTarget);
    } else if i == 3 {
      IconDefault(plan, b, colors, o, fade, "base", plan.iconBase);
    } else if i == 4 {
      IconDefault(plan, b, colors, o, fade, "active", Base06);
    } else {
      StatusbarDefault(plan, b, colors, o, fade);
    }
  }

  /** With no overrides, the palette decides every defaulted colour. */
  lemma PlainPalette(plan: Plan, b: Base16, colors: Value, fade: Value -> Value, i: nat)
    requires i < |Defaults(plan)|
    ensures Lookup(Build(plan, b, colors, Obj([]), fade), Defaults(plan)[i].0) == Some(Str(SlotColor(b, Defaults(plan)[i].1)))
  {
    BuildDefaults(plan, b, colors, Obj([]), fade, i);
  }

  /** An icon's fill is the override's fill when given, else derived from the icon's resolved stroke. */
  lemma IconFill(plan: Plan, b: Base16, colors: Value, overrides: Value, fade: Value -> Value, which: string)
    requires which == "base" || which == "active"
    ensures var t := Build(plan, b, colors, overrides, fade);
      var fill := Lookup(overrides, ["icon", which, "fill"]);
      var stroke := Lookup(t, ["icon", which, "stroke"]);
      stroke.Some? &&
      Lookup(t, ["icon", which, "fill"]) == Some(if Nullish(fill) then fade(stroke.value) else fill.value)
  {
    IconLookup(plan, b, colors, overrides, fade, which, "stroke");
    IconLookup(plan, b, colors, overrides, fade, which, "fill");
  }

  /** `colors` passes through as given, and `windowRounding` is written exactly by the copy that sets it. */
  lemma BuildExtras(plan: Plan, b: Base16, colors: Value, overrides: Value, fade: Value -> Value)
    ensures var t := Build(plan, b, colors, overrides, fade);
      Lookup(t, ["colors"]) == Some(colors) &&
      (plan.rounding ==> Lookup(t, ["windowRounding"]) == Some(Str("large")))
  {
    BuildColors(plan, b, colors, overrides, fade);
    if plan.rounding {
      BuildRounding(plan, b, colors, overrides, fade);
    }
  }

  lemma BuildColors(plan: Plan, b: Base16, colors: Value, overrides: Value, fade: Value -> Value)
    ensures Lookup(Build(plan, b, colors, overrides, fade), ["colors"]) == Some(colors)
  {
    BuildStep(plan, b, colors, overrides, fade, 8, ["colors"]);
  }

  lemma BuildRounding(plan: Plan, b: Base16, colors: Value, overrides: Value, fade: Value -> Value)
    requires plan.rounding
    ensures Lookup(Build(plan, b, colors, overrides, fade), ["windowRounding"]) == Some(Str("large"))
  {
    BuildStep(plan, b, colors, overrides, fade, 9, ["windowRounding"]);
  }

  /** The colour names, in the order of theme/src/Theme.ts's `colors` list. */
  datatype ColorKind = Red | Orange | Yellow | Green | Aqua | Blue | Purple | Pink

  function ColorName(c: ColorKind): string {
    match c
    case Red => "red" case Orange => "orange" case Yellow => "yellow" case Green => "green"
    case Aqua => "aqua" case Blue => "blue" case Purple => "purple" case Pink => "pink"
  }

  const ColorNames: seq<string> := ["red", "orange", "yellow", "green", "aqua", "blue", "purple", "pink"]

  /** `colors` lists each colour kind exactly once and nothing else. */
  lemma ColorNamesExactly()
    ensures |ColorNames| == 8
    ensures forall i, j | 0 <= i < j < |ColorNames| :: ColorNames[i] != ColorNames[j]
    ensures forall c: ColorKind :: ColorName(c) in ColorNames
    ensures forall n | n in ColorNames :: exists c: ColorKind :: ColorName(c) == n
  {
    assert ColorName(Red) == ColorNames[0] && ColorName(Orange) == ColorNames[1];
    assert ColorName(Yellow) == ColorNames[2] && ColorName(Green) == ColorNames[3];
    assert ColorName(Aqua) == ColorNames[4] && ColorName(Blue) == ColorNames[5];
    assert ColorName(Purple) == ColorNames[6] && ColorName(Pink) == ColorNames[7];
  }

  const IconSchema := ZObject([Member("stroke", ZString), Member("fill", ZString)])
  /** `{ base, background, border }`, each a string. */
  const ColorTupleSchema := ZObject(StringMembers(ColorParts))

  /** An object shape with a string member under each key. */
  function StringMembers(keys: seq<string>): (r: seq<Member>)
    ensures |r| == |keys| && forall i | 0 <= i < |r| :: r[i] == Member(keys[i], ZString)
  {
    seq(|keys|, i requires 0 <= i < |keys| => Member(keys[i], ZString))
  }
  const PanelSchema := ZObject([Member("tab", ZObject([Member("background", ZObject([
      Member("idle", ZString), Member("active", ZString), Member("dropTarget", ZString)]))]))])
  const IconsSchema := ZObject([Member("base", IconSchema), Member("active", IconSchema)])
  const ColorsRecord := ZRecord(ZEnum(ColorNames), ColorTupleSchema)

  /** The colour part of app/theme/src/Theme.ts's `ThemeColorsSchema`; `colors` is a record keyed by colour kind. */
  const ThemeColorsSchema := ZObject([
    Member("background", ZString),
    Member("text", ZString),
    Member("deemphasis", ZString),
    Member("selection", ZString),
    Member("border", ZString),
    Member("panel", PanelSchema),
    Member("icon", IconsSchema),
    Member("statusbar", ZObject([Member("background", ZString)])),
    Member("colors", ColorsRecord)])

  const ColorParts: seq<string> := ["base", "background", "border"]

  /** The colour paths of the theme outside `colors`. */
  const ThemeColorLeaves: seq<seq<string>> := [
    ["background"], ["text"], ["deemphasis"], ["selection"], ["border"],
    ["panel", "tab", "background", "idle"], ["panel", "tab", "background", "active"], ["panel", "tab", "background", "dropTarget"],
    ["icon", "base", "stroke"], ["icon", "base", "fill"], ["icon", "active", "stroke"], ["icon", "active", "fill"],
    ["statusbar", "background"]]

  /** A colour set as the record expects: every colour kind with a string for each of its three parts. */
  predicate ColorsOk(colors: Value) {
    forall c, part | c in ColorNames && part in ColorParts ::
      Lookup(colors, [c, part]).Some? && Lookup(colors, [c, part]).value.Str?
  }

  /** Overrides as the partial theme type allows: a string or nothing at each colour path. */
  predicate OverridesOk(overrides: Value) {
    forall k | 0 <= k < |ThemeColorLeaves| ::
      Nullish(Lookup(overrides, ThemeColorLeaves[k])) || Lookup(overrides, ThemeColorLeaves[k]).value.Str?
  }

  /** The colour library turns a colour string into a colour string. */
  ghost predicate FadeOk(fade: Value -> Value) {
    forall v: Value | v.Str? :: fade(v).Str?
  }

  lemma PanelSchemaLeaf(q: seq<string>)
    requires SchemaPath(PanelSchema, q)
    ensures q in [["tab", "background", "idle"], ["tab", "background", "active"], ["tab", "background", "dropTarget"]]
  {
    var tab := PanelSchema.shape[0].schema;
    var background := tab.shape[0].schema;
    assert q[0] == "tab" && SchemaPath(tab, q[1..]);
    assert q[1] == "background" && SchemaPath(background, q[2..]);
    var i :| 0 <= i < 3 && background.shape[i].key == q[2] && SchemaPath(background.shape[i].schema, q[3..]);
    assert background.shape[i].schema == ZString;
    assert q == ["tab", "background", background.shape[i].key];
  }

  lemma IconsSchemaLeaf(q: seq<string>)
    requires SchemaPath(IconsSchema, q)
    ensures q in [["base", "stroke"], ["base", "fill"], ["active", "stroke"], ["active", "fill"]]
  {
    var i :| 0 <= i < 2 && IconsSchema.shape[i].key == q[0] && SchemaPath(IconSchema, q[1..]);
    var j :| 0 <= j < 2 && IconSchema.shape[j].key == q[1] && SchemaPath(ZString, q[2..]);
    assert q == [IconsSchema.shape[i].key, IconSchema.shape[j].key];
  }

  /** In an object of strings, every path is one member's key. */
  lemma StringMembersLeaf(keys: seq<string>, t: seq<string>)
    requires SchemaPath(ZObject(StringMembers(keys)), t)
    ensures |t| == 1 && t[0] in keys
  {
  }

  lemma ColorTupleLeaf(t: seq<string>)
    requires SchemaPath(ColorTupleSchema, t)
    ensures |t| == 1 && t[0] in ColorParts
  {
    StringMembersLeaf(ColorParts, t);
  }

  lemma ColorsRecordLeaf(q: seq<string>)
    requires SchemaPath(ColorsRecord, q)
    ensures |q| == 2 && q[0] in ColorNames && q[1] in ColorParts
  {
    ColorTupleLeaf(q[1..]);
  }

  /** A listed colour path, or a colour kind's part under `colors`. */
  predicate ThemeColorLeaf(q: seq<string>) {
    (exists k | 0 <= k < |ThemeColorLeaves| :: ThemeColorLeaves[k] == q) ||
    (|q| == 3 && q[0] == "colors" && q[1] in ColorNames && q[2] in ColorParts)
  }

  lemma ScalarLeaf(q: seq<string>, i: nat)
    requires i < 5 && |q| > 0 && q[0] == ThemeColorsSchema.shape[i].key
    requires SchemaPath(ThemeColorsSchema.shape[i].schema, q[1..])
    ensures ThemeColorLeaf(q)
  {
    assert q == [q[0]] + q[1..];
    assert ThemeColorLeaves[i] == q;
  }

  lemma PanelLeaf(q: seq<string>)
    requires |q| > 0 && q[0] == "panel" && SchemaPath(PanelSchema, q[1..])
    ensures ThemeColorLeaf(q)
  {
    PanelSchemaLeaf(q[1..]);
    var j :| 0 <= j < 3 && [["tab", "background", "idle"], ["tab", "background", "active"], ["tab", "background", "dropTarget"]][j] == q[1..];
    assert q == [q[0]] + q[1..];
    assert ThemeColorLeaves[5 + j] == q;
  }

  lemma IconLeaf(q: seq<string>)
    requires |q| > 0 && q[0] == "icon" && SchemaPath(IconsSchema, q[1..])
    ensures ThemeColorLeaf(q)
  {
    IconsSchemaLeaf(q[1..]);
    var j :| 0 <= j < 4 && [["base", "stroke"], ["base", "fill"], ["active", "stroke"], ["active", "fill"]][j] == q[1..];
    assert q == [q[0]] + q[1..];
    assert ThemeColorLeaves[8 + j] == q;
  }

  lemma StatusbarLeaf(q: seq<string>)
    requires |q| > 0 && q[0] == "statusbar" && SchemaPath(ZObject([Member("background", ZString)]), q[1..])
    ensures ThemeColorLeaf(q)
  {
    assert q[1] == "background" && SchemaPath(ZString, q[2..]);
    assert q == [q[0], q[1]];
    assert ThemeColorLeaves[12] == q;
  }

  lemma ColorsLeaf(q: seq<string>)
    requires |q| > 0 && q[0] == "colors" && SchemaPath(ColorsRecord, q[1..])
    ensures ThemeColorLeaf(q)
  {
    ColorsRecordLeaf(q[1..]);
  }

  /** The leaf paths of `ThemeColorsSchema` are the listed colour paths and, under `colors`, a colour kind and one of its parts. */
  lemma ThemeColorsSchemaLeaf(q: seq<string>)
    requires SchemaPath(ThemeColorsSchema, q)
    ensures ThemeColorLeaf(q)
  {
    var shape := ThemeColorsSchema.shape;
    var i :| 0 <= i < |shape| && shape[i].key == q[0] && SchemaPath(shape[i].schema, q[1..]);
    if i < 5 {
      ScalarLeaf(q, i);
    } else if i == 5 {
      PanelLeaf(q);
    } else if i == 6 {
      IconLeaf(q);
    } else if i == 7 {
      StatusbarLeaf(q);
    } else {
      ColorsLeaf(q);
    }
  }

  /** A string is stored at `q`. */
  predicate HoldsString(t: Value, q: seq<string>) {
    Lookup(t, q).Some? && Lookup(t, q).value.Str?
  }

  /** The defaulted colour paths of `themeColorsFromBase16`, in their places among the listed paths. */
  lemma DefaultIndex(k: nat) returns (i: nat)
    requires k < |ThemeColorLeaves| && k != 9 && k != 11
    ensures i < |Defaults(ThemePackage)| && Defaults(ThemePackage)[i].0 == ThemeColorLeaves[k]
  {
    i := if k < 9 then k else if k == 10 then 9 else 10;
  }

  lemma DefaultHoldsString(b: Base16, colors: Value, o: Value, fade: Value -> Value, k: nat)
    requires OverridesOk(o) && k < |ThemeColorLeaves| && k != 9 && k != 11
    ensures HoldsString(Build(ThemePackage, b, colors, o, fade), ThemeColorLeaves[k])
  {
    var i := DefaultIndex(k);
    BuildDefaults(ThemePackage, b, colors, o, fade, i);
  }

  lemma FillHoldsString(b: Base16, colors: Value, o: Value, fade: Value -> Value, which: string, ks: nat, kf: nat)
    requires OverridesOk(o) && FadeOk(fade)
    requires ks < |ThemeColorLeaves| && ThemeColorLeaves[ks] == ["icon", which, "stroke"] && ks != 9 && ks != 11
    requires kf < |ThemeColorLeaves| && ThemeColorLeaves[kf] == ["icon", which, "fill"]
    requires which == "base" || which == "active"
    ensures HoldsString(Build(ThemePackage, b, colors, o, fade), ["icon", which, "fill"])
  {
    IconFill(ThemePackage, b, colors, o, fade, which);
    DefaultHoldsString(b, colors, o, fade, ks);
  }

  /** Every copy passes the colour set through under `colors`. */
  lemma ColorsStep(plan: Plan, b: Base16, colors: Value, o: Value, fade: Value -> Value, q: seq<string>)
    requires |q| > 0 && q[0] == "colors"
    ensures Lookup(Build(plan, b, colors, o, fade), q) == Lookup(colors, q[1..])
  {
    BuildStep(plan, b, colors, o, fade, 8, q);
  }

  lemma ColorHoldsString(b: Base16, colors: Value, o: Value, fade: Value -> Value, q: seq<string>)
    requires ColorsOk(colors)
    requires |q| == 3 && q[0] == "colors" && q[1] in ColorNames && q[2] in ColorParts
    ensures HoldsString(Build(ThemePackage, b, colors, o, fade), q)
  {
    ColorsStep(ThemePackage, b, colors, o, fade, q);
    assert q[1..] == [q[1], q[2]];
  }

  /**
   * Every CSS variable the schema walk names has a string behind it in a
   * theme built by `themeColorsFromBase16`, whatever the palette, provided
   * the overrides and the colour set have the types the schema gives them.
   */
  lemma ThemeLeavesResolve(b: Base16, colors: Value, overrides: Value, fade: Value -> Value, q: seq<string>)
    requires ColorsOk(colors) && OverridesOk(overrides) && FadeOk(fade)
    requires SchemaPath(ThemeColorsSchema, q)
    ensures HoldsString(Build(ThemePackage, b, colors, overrides, fade), q)
  {
    ThemeColorsSchemaLeaf(q);
    if exists k | 0 <= k < |ThemeColorLeaves| :: ThemeColorLeaves[k] == q {
      var k :| 0 <= k < |ThemeColorLeaves| && ThemeColorLeaves[k] == q;
      if k == 9 {
        FillHoldsString(b, colors, overrides, fade, "base", 8, 9);
      } else if k == 11 {
        FillHoldsString(b, colors, overrides, fade, "active", 10, 11);
      } else {
        DefaultHoldsString(b, colors, overrides, fade, k);
      }
    } else {
      ColorHoldsString(b, colors, overrides, fade, q);
    }
  }

  /** The CSS custom property for a path: "--theme-" and the keys joined with "-". */
  function CssVarName(path: seq<string>): string {
    "--theme-" + JoinDash(path)
  }

  function JoinDash(path: seq<string>): string {
    if |path| == 0 then "" else if |path| == 1 then path[0] else path[0] + "-" + JoinDash(path[1..])
  }

  /** `s.split("-")`: the pieces between dashes, always at least one. */
  function SplitDash(s: string): (r: seq<string>)
    ensures |r| >= 1
  {
    if |s| == 0 then [""]
    else
      var rest := SplitDash(s[1..]);
      if s[0] == '-' then [""] + rest else [[s[0]] + rest[0]] + rest[1..]
  }

  predicate DashFree(path: seq<string>) {
    forall i | 0 <= i < |path| :: '-' !in path[i]
  }

  lemma {:induction false} SplitDashFree(k: string, rest: string)
    requires '-' !in k
    ensures SplitDash(k + rest) == [k + SplitDash(rest)[0]] + SplitDash(rest)[1..]
  {
    if |k| > 0 {
      SplitDashFree(k[1..], rest);
      assert (k + rest)[1..] == k[1..] + rest;
      assert [k[0]] + (k[1..] + SplitDash(rest)[0]) == k + SplitDash(rest)[0];
    } else {
      var r := SplitDash(rest);
      assert k + rest == rest && k + r[0] == r[0];
      assert [r[0]] + r[1..] == r;
    }
  }

  /** Splitting a variable's name at the dashes gives the path back, when no key contains a dash. */
  lemma {:induction false} CssVarNameSplits(path: seq<string>)
    requires |path| >= 1 && DashFree(path)
    ensures SplitDash(JoinDash(path)) == path
  {
    if |path| == 1 {
      SplitDashFree(path[0], "");
      assert path[0] + "" == path[0];
    } else {
      CssVarNameSplits(path[1..]);
      var tail := "-" + JoinDash(path[1..]);
      assert path[0] + "-" + JoinDash(path[1..]) == path[0] + tail;
      SplitDashFree(path[0], tail);
      assert |tail| > 0 && tail[0] == '-' && tail[1..] == JoinDash(path[1..]);
      assert SplitDash(tail) == [""] + path[1..];
      assert path[0] + "" == path[0];
      assert [path[0]] + path[1..] == path;
    }
  }

  /** Two dash-free paths share a variable name only if they are the same path. */
  lemma CssVarNameInjective(p1: seq<string>, p2: seq<string>)
    requires |p1| >= 1 && |p2| >= 1 && DashFree(p1) && DashFree(p2)
    requires CssVarName(p1) == CssVarName(p2)
    ensures p1 == p2
  {
    var pre := "--theme-";
    assert CssVarName(p1)[|pre|..] == JoinDash(p1);
    assert CssVarName(p2)[|pre|..] == JoinDash(p2);
    CssVarNameSplits(p1);
    CssVarNameSplits(p2);
  }
}
