/** Style helpers: merging style objects and choosing a style by screen width. */
module Styles {
  import opened Util

  /** A style object: property names and their values. */
  type Style<V> = map<string, V>

  /** `mergeStyles`: a left fold from the empty object over the arguments; a falsy argument
      (`undefined`, `null`, `false`), written `None`, is skipped, and each other argument is spread
      over the accumulator, so its keys replace earlier ones: the last argument, when truthy,
      gives every one of its keys its value. */
  function MergeStyles<V>(styles: seq<Option<Style<V>>>): (merged: Style<V>)
    ensures styles == [] ==> merged == map[]
    ensures styles != [] && styles[|styles| - 1].Some? ==>
      forall k :: k in styles[|styles| - 1].value ==> k in merged && merged[k] == styles[|styles| - 1].value[k]
    decreases |styles|
  {
    if styles == [] then map[]
    else
      var acc := MergeStyles(styles[..|styles| - 1]);
      match styles[|styles| - 1]
      case None => acc
      case Some(s) => acc + s
  }

  /** Merging two runs of arguments is merging each and spreading the second result over the
      first. */
  lemma {:induction false} MergeAppend<V>(a: seq<Option<Style<V>>>, b: seq<Option<Style<V>>>)
    ensures MergeStyles(a + b) == MergeStyles(a) + MergeStyles(b)
    decreases |b|
  {
    if b == [] {
      assert a + b == a;
      assert MergeStyles(a) + map[] == MergeStyles(a);
    } else {
      var init := b[..|b| - 1];
      MergeAppend(a, init);
      assert (a + b)[..|a + b| - 1] == a + init;
      assert (a + b)[|a + b| - 1] == b[|b| - 1];
      match b[|b| - 1]
      case None =>
      case Some(s) =>
        assert (MergeStyles(a) + MergeStyles(init)) + s == MergeStyles(a) + (MergeStyles(init) + s);
    }
  }

  /** A falsy argument anywhere changes nothing. */
  lemma FalsyIgnored<V>(a: seq<Option<Style<V>>>, b: seq<Option<Style<V>>>)
    ensures MergeStyles(a + [None] + b) == MergeStyles(a + b)
  {
    MergeAppend(a + [None], b);
    MergeAppend(a, [None]);
    MergeAppend(a, b);
    var none: seq<Option<Style<V>>> := [None];
    assert none[..0] == [];
  }

  /** The result has exactly the keys of the truthy arguments. */
  lemma {:induction false} MergeKeys<V>(styles: seq<Option<Style<V>>>)
    ensures forall k :: k in MergeStyles(styles) <==>
      exists i :: 0 <= i < |styles| && styles[i].Some? && k in styles[i].value
    decreases |styles|
  {
    if styles != [] {
      var init := styles[..|styles| - 1];
      MergeKeys(init);
      assert forall i :: 0 <= i < |init| ==> init[i] == styles[i];
      forall k | k in MergeStyles(styles)
        ensures exists i :: 0 <= i < |styles| && styles[i].Some? && k in styles[i].value
      {
        if k !in MergeStyles(init) {
          assert styles[|styles| - 1].Some? && k in styles[|styles| - 1].value;
        }
      }
    }
  }

  /** A key takes its value from the last truthy argument that has it. */
  lemma {:induction false} LastWins<V>(styles: seq<Option<Style<V>>>, i: nat, k: string)
    requires i < |styles| && styles[i].Some? && k in styles[i].value
    requires forall j :: i < j < |styles| ==> styles[j].None? || k !in styles[j].value
    ensures k in MergeStyles(styles) && MergeStyles(styles)[k] == styles[i].value[k]
    decreases |styles|
  {
    var init := styles[..|styles| - 1];
    if i < |styles| - 1 {
      assert init[i] == styles[i];
      assert forall j :: i < j < |init| ==> init[j] == styles[j];
      LastWins(init, i, k);
    }
  }

  /** With no truthy argument the result is the empty object. */
  lemma NoTruthyIsEmpty<V>(styles: seq<Option<Style<V>>>)
    requires forall i :: 0 <= i < |styles| ==> styles[i].None?
    ensures MergeStyles(styles) == map[]
  {
    MergeKeys(styles);
    assert MergeStyles(styles).Keys == {};
  }

  /** `createResponsiveStyle`: a selector from the screen's width and height. An optional variant
      that is absent (or falsy) is written `None`. The selector prefers `large` from 768 on, then
      `medium` from 480 on, then `small`; the height never matters. */
  function CreateResponsiveStyle<T>(small: T, medium: Option<T>, large: Option<T>): (select: (real, real) -> T)
    ensures forall width: real, height: real :: large.Some? && width >= 768.0 ==>
      select(width, height) == large.value
    ensures forall width: real, height: real ::
      medium.Some? && 480.0 <= width && (large.None? || width < 768.0) ==> select(width, height) == medium.value
    ensures forall width: real, height: real ::
      (medium.None? || width < 480.0) && (large.None? || width < 768.0) ==> select(width, height) == small
    ensures forall width: real, height: real, other: real :: select(width, height) == select(width, other)
  {
    (width: real, height: real) =>
      if large.Some? && width >= 768.0 then large.value
      else if medium.Some? && width >= 480.0 then medium.value
      else small
  }

  /** With every variant given, the three width bands partition the axis; without variants the
      selector is constant. */
  lemma ResponsiveBands<T>(small: T, medium: T, large: T, width: real, height: real)
    ensures var select := CreateResponsiveStyle(small, Some(medium), Some(large));
      select(width, height) == (if width < 480.0 then small else if width < 768.0 then medium else large)
    ensures CreateResponsiveStyle(small, None, None)(width, height) == small
  {
  }
}
