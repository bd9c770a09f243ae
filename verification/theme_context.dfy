/**
 * The theme context of the second user interface
 * (ui/src/renderer/ui/Theme/Context.ts and ui/src/renderer/ui/ThemeProvider.tsx,
 * which carry the same `TransformedTheme`). A theme handed to a provider is
 * turned into a "transformed" theme once: its `windowRounding` setting
 * becomes a tailwind class and it is tagged. Providers nest: an inner
 * provider without a theme of its own shows its parent's, and every provider
 * reports the outermost provider's element as the root.
 */
module ThemeContext {
  import opened Wrappers
  import opened ThemePaths

  /** The tag a transformed theme carries under `_tag`. */
  const TransformedTag := "transformed"

  /** The tailwind classes a window rounding setting can become. */
  const RoundingClasses: seq<string> := ["rounded-none", "rounded-sm", "rounded-md", "rounded-lg"]

  /**
   * The class for the value found under `windowRounding`: the four settings
   * by name, and `rounded-none` for anything else, a missing key included.
   */
  function RoundingClass(rounding: Option<Value>): (r: string)
    ensures r in RoundingClasses
  {
    if rounding == Some(Str("none")) then "rounded-none"
    else if rounding == Some(Str("small")) then "rounded-sm"
    else if rounding == Some(Str("medium")) then "rounded-md"
    else if rounding == Some(Str("large")) then "rounded-lg"
    else "rounded-none"
  }

  /** Each named setting has its own class, and only `none` shares `rounded-none` with the fallback. */
  lemma RoundingClassExactly(rounding: Option<Value>)
    ensures RoundingClass(rounding) == "rounded-sm" <==> rounding == Some(Str("small"))
    ensures RoundingClass(rounding) == "rounded-md" <==> rounding == Some(Str("medium"))
    ensures RoundingClass(rounding) == "rounded-lg" <==> rounding == Some(Str("large"))
    ensures RoundingClass(rounding) == "rounded-none" <==>
      rounding != Some(Str("small")) && rounding != Some(Str("medium")) && rounding != Some(Str("large"))
  {
  }

  /** Whether a theme object already carries the transformed tag. */
  predicate Transformed(theme: Value) {
    theme.Obj? && Get(theme.fields, "_tag") == Some(Str(TransformedTag))
  }

  /**
   * `TransformedTheme(theme)`: a tagged theme is returned as it is; any other
   * theme gets its rounding class and the tag assigned onto it.
   */
  function Transform(theme: Value): (r: Value)
    requires theme.Obj?
    ensures Transformed(r)
    ensures Transformed(theme) ==> r == theme
    ensures !Transformed(theme) ==>
      Get(r.fields, "windowRounding") == Some(Str(RoundingClass(Get(theme.fields, "windowRounding"))))
  {
    if Transformed(theme) then theme
    else
      var rounded := Assign(theme.fields, "windowRounding", Str(RoundingClass(Get(theme.fields, "windowRounding"))));
      var tagged := Assign(rounded, "_tag", Str(TransformedTag));
      AssignOther(rounded, "_tag", Str(TransformedTag), "windowRounding");
      Obj(tagged)
  }

  /** Transforming twice is transforming once. */
  lemma TransformIdempotent(theme: Value)
    requires theme.Obj?
    ensures Transform(Transform(theme)) == Transform(theme)
  {
  }

  /** Every key other than the two it assigns reads as it did in the theme given. */
  lemma TransformKeepsOthers(theme: Value, k: string)
    requires theme.Obj? && k != "windowRounding" && k != "_tag"
    ensures Get(Transform(theme).fields, k) == Get(theme.fields, k)
  {
    if !Transformed(theme) {
      var rounded := Assign(theme.fields, "windowRounding", Str(RoundingClass(Get(theme.fields, "windowRounding"))));
      AssignOther(theme.fields, "windowRounding", Str(RoundingClass(Get(theme.fields, "windowRounding"))), k);
      AssignOther(rounded, "_tag", Str(TransformedTag), k);
    }
  }

  /** A theme without repeated keys stays so: both keys are assigned in place or appended once. */
  lemma TransformKeepsUnique(theme: Value)
    requires theme.Obj? && UniqueKeys(theme.fields)
    ensures UniqueKeys(Transform(theme).fields)
  {
    if !Transformed(theme) {
      var rounded := Assign(theme.fields, "windowRounding", Str(RoundingClass(Get(theme.fields, "windowRounding"))));
      AssignUnique(theme.fields, "windowRounding", Str(RoundingClass(Get(theme.fields, "windowRounding"))));
      AssignUnique(rounded, "_tag", Str(TransformedTag));
    }
  }

  /** What a provider's `theme()` gives: a theme, or the error it throws. */
  datatype Resolved = Theme(value: Value) | NoTheme

  /** What a provider puts in the context: its theme accessor's result and the root element. */
  datatype Context<E> = Context(theme: Resolved, root: E)

  /**
   * A provider with theme prop `prop` inside the context `parent` (none at
   * the top), rendering the element `element`.
   */
  function Provide<E>(prop: Option<Value>, parent: Option<Context<E>>, element: E): (r: Context<E>)
    requires prop.Some? ==> prop.value.Obj?
    ensures r.theme.Theme? <==> prop.Some? || (parent.Some? && parent.value.theme.Theme?)
    ensures r.theme.Theme? ==> Transformed(r.theme.value) || (prop.None? && r.theme == parent.value.theme)
  {
    var theme :=
      if prop.Some? then Theme(Transform(prop.value))
      else if parent.Some? then parent.value.theme
      else NoTheme;
    var root := if parent.Some? then parent.value.root else element;
    Context(theme, root)
  }

  /** Theme props of nested providers, outermost first, each an object when present. */
  predicate PropsOk(props: seq<Option<Value>>) {
    forall i | 0 <= i < |props| :: props[i].Some? ==> props[i].value.Obj?
  }

  /** The context the innermost of the providers sees, providers listed outermost first. */
  function Nest<E>(props: seq<Option<Value>>, elements: seq<E>): (r: Option<Context<E>>)
    requires |props| == |elements| && PropsOk(props)
    ensures r.Some? <==> |props| > 0
  {
    if |props| == 0 then None
    else
      var n := |props| - 1;
      Some(Provide(props[n], Nest(props[..n], elements[..n]), elements[n]))
  }

  /** However deeply nested, every provider reports the outermost provider's element as the root. */
  lemma {:induction false} NestRoot<E>(props: seq<Option<Value>>, elements: seq<E>)
    requires |props| == |elements| > 0 && PropsOk(props)
    ensures Nest(props, elements).value.root == elements[0]
  {
    var n := |props| - 1;
    if n > 0 {
      NestRoot(props[..n], elements[..n]);
    }
  }

  /**
   * The nearest provider with a theme prop decides the theme; with no theme
   * prop anywhere, asking for the theme throws.
   */
  lemma {:induction false} NestTheme<E>(props: seq<Option<Value>>, elements: seq<E>, i: nat)
    requires |props| == |elements| && PropsOk(props)
    requires i < |props| && props[i].Some? && forall j | i < j < |props| :: props[j].None?
    ensures Nest(props, elements).value.theme == Theme(Transform(props[i].value))
  {
    var n := |props| - 1;
    if i < n {
      NestTheme(props[..n], elements[..n], i);
    }
  }

  lemma {:induction false} NestNoTheme<E>(props: seq<Option<Value>>, elements: seq<E>)
    requires |props| == |elements| > 0 && PropsOk(props)
    requires forall j | 0 <= j < |props| :: props[j].None?
    ensures Nest(props, elements).value.theme == NoTheme
  {
    var n := |props| - 1;
    if n > 0 {
      NestNoTheme(props[..n], elements[..n]);
    }
  }
}
