/** The theme provider: the stored colour-scheme choice, the scheme in effect, and the theme it
    selects and customises. */
module ThemeProvider {
  import opened Util

  /** The scheme a user can choose; `System` follows the device. */
  datatype ColorScheme = Light | Dark | System

  /** What the device reports through `useColorScheme`: never `System`. */
  type Appearance = s: ColorScheme | s != System witness Light

  /** A token value of a theme section; nested groups (a colour scale, a shadow) are replaced
      whole by a merge. */
  datatype Value = Str(s: string) | Num(n: int) | Group(entries: map<string, Value>)

  type Section = map<string, Value>

  datatype Theme = Theme(colors: Section, spacing: Section, typography: Section, shadows: Section,
                         borderRadius: Section)

  /** `Partial<Theme>`: any section may be missing. */
  datatype PartialTheme = PartialTheme(colors: Option<Section>, spacing: Option<Section>,
                                       typography: Option<Section>, shadows: Option<Section>,
                                       borderRadius: Option<Section>)

  /** The `customTheme` property: optional customisations per appearance. */
  datatype CustomTheme = CustomTheme(light: Option<PartialTheme>, dark: Option<PartialTheme>)

  /** The scheme in effect: the device's when the choice is `System`, else the choice. */
  function EffectiveScheme(choice: ColorScheme, system: Appearance): (e: Appearance)
    ensures choice != System ==> e == choice
    ensures choice == System ==> e == system
  {
    if choice == System then system else choice
  }

  function Opposite(a: Appearance): (o: Appearance)
    ensures o != a
  {
    if a == Dark then Light else Dark
  }

  /** The new choice after `toggleColorScheme`: from `System`, the opposite of the device's
      scheme; otherwise light and dark swap. */
  function Toggled(choice: ColorScheme, system: Appearance): ColorScheme {
    if choice == System then (if system == Dark then Light else Dark)
    else if choice == Dark then Light else Dark
  }

  /** A toggle always leaves an explicit choice, the opposite of the scheme that was in effect,
      whatever the device reports afterwards; a second toggle restores the scheme in effect before
      the first. */
  lemma ToggleFlipsEffective(choice: ColorScheme, system: Appearance, later: Appearance)
    ensures Toggled(choice, system) != System
    ensures EffectiveScheme(Toggled(choice, system), later) == Opposite(EffectiveScheme(choice, system))
    ensures Toggled(Toggled(choice, system), later) == EffectiveScheme(choice, system)
  {
  }

  /** A section spread over with an optional customisation: custom keys win; an absent
      customisation spreads nothing. */
  function MergeSection(base: Section, custom: Option<Section>): (m: Section)
    ensures m.Keys == base.Keys + (if custom.Some? then custom.value.Keys else {})
    ensures forall k :: k in m ==> m[k] == (if custom.Some? && k in custom.value then custom.value[k] else base[k])
  {
    match custom
    case None => base
    case Some(c) => base + c
  }

  /** The theme customised by `custom`, if there is one; each of the five sections is merged one
      level deep. */
  function ApplyCustomization(base: Theme, custom: Option<PartialTheme>): (t: Theme)
    ensures custom.None? ==> t == base
  {
    match custom
    case None => base
    case Some(c) =>
      Theme(MergeSection(base.colors, c.colors), MergeSection(base.spacing, c.spacing),
            MergeSection(base.typography, c.typography), MergeSection(base.shadows, c.shadows),
            MergeSection(base.borderRadius, c.borderRadius))
  }

  /** The theme the provider publishes for a choice and a device scheme: without a customisation,
      the dark or the light base theme as the scheme in effect is dark or light. */
  function ResolveTheme(choice: ColorScheme, system: Appearance, lightTheme: Theme, darkTheme: Theme,
                        customTheme: Option<CustomTheme>): (t: Theme)
    ensures customTheme.None? ==> t == if EffectiveScheme(choice, system) == Dark then darkTheme else lightTheme
  {
    var effective := EffectiveScheme(choice, system);
    var base := if effective == Dark then darkTheme else lightTheme;
    var custom := if customTheme.None? then None
                  else if effective == Dark then customTheme.value.dark else customTheme.value.light;
    ApplyCustomization(base, custom)
  }

  /** The dark base theme and the dark customisation are used exactly when the scheme in effect is
      dark; without a customisation for that scheme the theme is the base theme, and a
      customisation that sets no section leaves it unchanged too. */
  lemma ThemeSelection(choice: ColorScheme, system: Appearance, lightTheme: Theme, darkTheme: Theme,
                       customTheme: Option<CustomTheme>)
    ensures var base := if EffectiveScheme(choice, system) == Dark then darkTheme else lightTheme;
      var custom := if customTheme.None? then None
                    else if EffectiveScheme(choice, system) == Dark then customTheme.value.dark
                    else customTheme.value.light;
      && (custom.None? ==> ResolveTheme(choice, system, lightTheme, darkTheme, customTheme) == base)
      && (custom == Some(PartialTheme(None, None, None, None, None)) ==>
            ResolveTheme(choice, system, lightTheme, darkTheme, customTheme) == base)
  {
  }

  /** A customised colour keeps every base colour key, and a key the customisation sets takes its
      custom value; the other sections behave the same way. */
  lemma CustomColorsWin(base: Theme, custom: PartialTheme, k: string)
    requires custom.colors.Some?
    ensures var t := ApplyCustomization(base, Some(custom));
      && base.colors.Keys <= t.colors.Keys
      && (k in custom.colors.value ==> t.colors[k] == custom.colors.value[k])
      && (k in base.colors && k !in custom.colors.value ==> t.colors[k] == base.colors[k])
      && t.colors.Keys <= base.colors.Keys + custom.colors.value.Keys
  {
  }

  /** The provider's state: the stored choice, the customisations and the two base themes. */
  class ThemeState {
    var colorScheme: ColorScheme
    const customTheme: Option<CustomTheme>
    const lightTheme: Theme
    const darkTheme: Theme

    /** `ThemeProvider`'s initial state: the given default choice, or `System` without one. */
    constructor (defaultColorScheme: Option<ColorScheme>, customTheme0: Option<CustomTheme>,
                 light: Theme, dark: Theme)
      ensures colorScheme == defaultColorScheme.GetOr(System)
      ensures customTheme == customTheme0 && lightTheme == light && darkTheme == dark
    {
      colorScheme := defaultColorScheme.GetOr(System);
      customTheme, lightTheme, darkTheme := customTheme0, light, dark;
    }

    /** The published theme for the device's current scheme. */
    function CurrentTheme(system: Appearance): (t: Theme)
      reads this
      ensures customTheme.None? ==>
        t == (if EffectiveScheme(colorScheme, system) == Dark then darkTheme else lightTheme)
    {
      ThemeSelection(colorScheme, system, lightTheme, darkTheme, customTheme);
      ResolveTheme(colorScheme, system, lightTheme, darkTheme, customTheme)
    }

    /** `setColorScheme`: stores the choice as given. */
    method SetColorScheme(scheme: ColorScheme)
      modifies this`colorScheme
      ensures colorScheme == scheme
    {
      colorScheme := scheme;
    }

    /** `toggleColorScheme`: stores the explicit opposite of the scheme in effect. */
    method ToggleColorScheme(system: Appearance)
      modifies this`colorScheme
      ensures colorScheme == Toggled(old(colorScheme), system)
      ensures colorScheme != System && colorScheme == Opposite(EffectiveScheme(old(colorScheme), system))
    {
      ToggleFlipsEffective(colorScheme, system, system);
      if colorScheme == System {
        SetColorScheme(if system == Dark then Light else Dark);
      } else {
        SetColorScheme(if colorScheme == Dark then Light else Dark);
      }
    }
  }
}
