/** The template engine: `{{ KEY }}` placeholder substitution, variables derived from the
    configuration, the `.template` target-path rewrite and the template-or-copy file loop. */
module TemplateEngine {
  import opened Util
  import opened Types
  import opened Environment

  /** The characters JavaScript's regular-expression class `\s` matches. */
  predicate IsSpace(c: char) {
    c == ' ' || c == '\t' || c == '\n' || c == '\r' || c == '\U{B}' || c == '\U{C}'
    || c == '\U{A0}' || c == '\U{1680}' || ('\U{2000}' <= c <= '\U{200A}')
    || c == '\U{2028}' || c == '\U{2029}' || c == '\U{202F}' || c == '\U{205F}'
    || c == '\U{3000}' || c == '\U{FEFF}'
  }

  /** Length of the longest prefix of `s` made of `\s` characters. */
  function SpaceRun(s: string): (n: nat)
    ensures n <= |s|
  {
    if s == [] || !IsSpace(s[0]) then 0 else 1 + SpaceRun(s[1..])
  }

  /** The run is greedy: every character in it is a space and the one after it is not. */
  lemma {:induction false} SpaceRunStops(s: string)
    ensures forall i :: 0 <= i < SpaceRun(s) ==> IsSpace(s[i])
    ensures SpaceRun(s) < |s| ==> !IsSpace(s[SpaceRun(s)])
    decreases |s|
  {
    if s != [] && IsSpace(s[0]) {
      SpaceRunStops(s[1..]);
      forall i | 0 <= i < SpaceRun(s) ensures IsSpace(s[i]) {
        if i > 0 {
          assert s[i] == s[1..][i - 1];
        }
      }
    }
  }

  /** The trailing `\s*}}` of a placeholder starting at `q`: where the match ends, if it closes. */
  function CloseAt(s: string, q: nat): Option<nat>
    requires q <= |s|
  {
    var t := q + SpaceRun(s[q..]);
    if StartsWith(s[t..], "}}") then Some(t + 2) else None
  }

  /** The leading `\s*` tried greedily from `j` spaces down to none, as the regular-expression
      engine backtracks: the end of the first complete match. */
  function TryLead(s: string, key: string, j: nat): Option<nat>
    requires 2 + j <= |s|
    decreases j
  {
    var p := 2 + j;
    if StartsWith(s[p..], key) && CloseAt(s, p + |key|).Some? then CloseAt(s, p + |key|)
    else if j == 0 then None
    else TryLead(s, key, j - 1)
  }

  /** A placeholder for `key` at the very start of `s`: the length it covers. */
  function MatchAt(s: string, key: string): Option<nat> {
    if StartsWith(s, "{{") then TryLead(s, key, SpaceRun(s[2..])) else None
  }

  lemma {:induction false} TryLeadBounds(s: string, key: string, j: nat)
    requires 2 + j <= |s|
    ensures TryLead(s, key, j).Some? ==> 2 < TryLead(s, key, j).value <= |s|
    decreases j
  {
    if j > 0 {
      TryLeadBounds(s, key, j - 1);
    }
  }

  /** The replacement text for one match, as `String.prototype.replace` expands a string
      replacement: `$$` is a dollar sign, `$&` the matched text, `` $` `` the text before the match
      and `$'` the text after it. The pattern has no capture groups, so every other `$` stands for
      itself. */
  function Expand(value: string, matched: string, before: string, after: string): (r: string)
    ensures '$' !in value ==> r == value
    decreases |value|
  {
    if value == [] then []
    else if value[0] == '$' && |value| >= 2 && value[1] in "$&`'" then
      (if value[1] == '$' then "$" else if value[1] == '&' then matched
       else if value[1] == '`' then before else after)
      + Expand(value[2..], matched, before, after)
    else [value[0]] + Expand(value[1..], matched, before, after)
  }

  /** The global replace over the rest `s` of the text, where `done` is the part of the original
      text already scanned: every placeholder for `key` becomes the expansion of `value` and the
      scan resumes after it. */
  function ReplaceFrom(done: string, s: string, key: string, value: string): string
    decreases |s|
  {
    if s == [] then []
    else
      var m := MatchAt(s, key);
      if m.Some? && 0 < m.value <= |s| then
        Expand(value, s[..m.value], done, s[m.value..])
        + ReplaceFrom(done + s[..m.value], s[m.value..], key, value)
      else [s[0]] + ReplaceFrom(done + [s[0]], s[1..], key, value)
  }

  /** `content.replace(new RegExp("{{\\s*" + key + "\\s*}}", "g"), value)`. Content without a
      "{{" anywhere is left as it is, whatever the value. */
  function ReplaceAll(s: string, key: string, value: string): (r: string)
    ensures NoOpen(s) ==> r == s
  {
    ReplaceFromNoOpen([], s, key, value);
    ReplaceFrom([], s, key, value)
  }

  /** A match always covers at least the opening braces, so the guard in `ReplaceAll` never
      falls back to copying a character that starts a placeholder. */
  lemma MatchAtBounds(s: string, key: string)
    ensures MatchAt(s, key).Some? ==> 2 < MatchAt(s, key).value <= |s|
  {
    if StartsWith(s, "{{") {
      TryLeadBounds(s, key, SpaceRun(s[2..]));
    }
  }

  /** Text without a "{{" anywhere. */
  predicate NoOpen(s: string) {
    forall i :: 0 <= i < |s| - 1 ==> !(s[i] == '{' && s[i + 1] == '{')
  }

  lemma {:induction false} ReplaceFromNoOpen(done: string, s: string, key: string, value: string)
    ensures NoOpen(s) ==> ReplaceFrom(done, s, key, value) == s
    decreases |s|
  {
    if s != [] && NoOpen(s) {
      assert !StartsWith(s, "{{") by {
        if |s| >= 2 {
          assert !(s[0] == '{' && s[1] == '{');
        }
      }
      assert NoOpen(s[1..]) by {
        forall i | 0 <= i < |s[1..]| - 1
          ensures !(s[1..][i] == '{' && s[1..][i + 1] == '{')
        {
          assert s[1..][i] == s[i + 1] && s[1..][i + 1] == s[i + 2];
        }
      }
      ReplaceFromNoOpen(done + [s[0]], s[1..], key, value);
    }
  }

  /** Variables applied one after another in entry order, each to the previous result. */
  function Interpolate(content: string, vars: seq<(string, string)>): string
    decreases |vars|
  {
    if vars == [] then content else Interpolate(ReplaceAll(content, vars[0].0, vars[0].1), vars[1..])
  }

  /** `interpolateVariables`: the result is the entry-order substitution of every variable. */
  method InterpolateVariables(content: string, vars: seq<(string, string)>) returns (result: string)
    ensures result == Interpolate(content, vars)
  {
    result := content;
    var i := 0;
    while i < |vars|
      invariant 0 <= i <= |vars|
      invariant Interpolate(result, vars[i..]) == Interpolate(content, vars)
    {
      assert vars[i..][1..] == vars[i + 1..];
      result := ReplaceAll(result, vars[i].0, vars[i].1);
      i := i + 1;
    }
    assert vars[i..] == [];
  }

  /** With no variables, or content without placeholders, interpolation is the identity. */
  lemma {:induction false} InterpolateIdentity(content: string, vars: seq<(string, string)>)
    requires vars == [] || NoOpen(content)
    ensures Interpolate(content, vars) == content
    decreases |vars|
  {
    if vars != [] {
      InterpolateIdentity(content, vars[1..]);
    }
  }

  // ---------------------------------------------------------------------------------------------
  // Templates as literal text and placeholders

  /** A piece of a template: literal text, or a placeholder `{{` lead key trail `}}`. */
  datatype Segment = Lit(text: string) | Hole(key: string, lead: string, trail: string)

  predicate AllSpace(s: string) {
    forall i :: 0 <= i < |s| ==> IsSpace(s[i])
  }

  /** A variable name the substitution can find: non-empty, no whitespace and no braces. */
  predicate PlainKey(k: string) {
    |k| >= 1 && forall i :: 0 <= i < |k| ==> !IsSpace(k[i]) && k[i] != '{' && k[i] != '}'
  }

  predicate NoBrace(s: string) {
    forall i :: 0 <= i < |s| ==> s[i] != '{'
  }

  /** Literal text inside which no placeholder can start, whatever follows it: no "{{" in it and
      no "{" at its end. */
  predicate LitOk(s: string) {
    NoOpen(s) && (s == [] || s[|s| - 1] != '{')
  }

  predicate SegmentOk(g: Segment) {
    match g
    case Lit(text) => LitOk(text)
    case Hole(key, lead, trail) => PlainKey(key) && AllSpace(lead) && AllSpace(trail)
  }

  predicate TemplateOk(t: seq<Segment>) {
    forall i :: 0 <= i < |t| ==> SegmentOk(t[i])
  }

  function RenderSegment(g: Segment): string {
    match g
    case Lit(text) => text
    case Hole(key, lead, trail) => "{{" + lead + key + trail + "}}"
  }

  function Render(t: seq<Segment>): string
    decreases |t|
  {
    if t == [] then "" else RenderSegment(t[0]) + Render(t[1..])
  }

  /** Every placeholder for `key` replaced by the literal `value`. */
  function Fill(t: seq<Segment>, key: string, value: string): (r: seq<Segment>)
    ensures |r| == |t|
    ensures forall i :: 0 <= i < |t| ==>
      r[i] == if t[i].Hole? && t[i].key == key then Lit(value) else t[i]
    decreases |t|
  {
    if t == [] then []
    else [if t[0].Hole? && t[0].key == key then Lit(value) else t[0]] + Fill(t[1..], key, value)
  }

  /** Every placeholder for `key` replaced by the expansion of `value`, where `done` is the text
      rendered before `t`; the text before and after a placeholder is what its expansion sees. */
  function FillIn(done: string, t: seq<Segment>, key: string, value: string): seq<Segment>
    decreases |t|
  {
    if t == [] then []
    else
      var g := t[0];
      [if g.Hole? && g.key == key then Lit(Expand(value, RenderSegment(g), done, Render(t[1..]))) else g]
      + FillIn(done + RenderSegment(g), t[1..], key, value)
  }

  function FillAll(t: seq<Segment>, vars: seq<(string, string)>): seq<Segment>
    decreases |vars|
  {
    if vars == [] then t else FillAll(Fill(t, vars[0].0, vars[0].1), vars[1..])
  }

  lemma {:induction false} SpaceRunAfterSpaces(w: string, x: string)
    requires AllSpace(w)
    requires x != [] && !IsSpace(x[0])
    ensures SpaceRun(w + x) == |w|
    decreases |w|
  {
    if w != [] {
      assert (w + x)[1..] == w[1..] + x;
      SpaceRunAfterSpaces(w[1..], x);
    } else {
      assert w + x == x;
    }
  }

  /** A literal inside which no placeholder starts is copied by the scan, which then goes on
      with `after`, the original text up to the end of the literal. */
  lemma {:induction false} LiteralPasses(done: string, a: string, rest: string, key: string,
                                         value: string, after: string)
    requires LitOk(a) && after == done + a
    ensures ReplaceFrom(done, a + rest, key, value) == a + ReplaceFrom(after, rest, key, value)
    decreases |a|
  {
    if a == [] {
      assert a + rest == rest && after == done;
    } else {
      var s := a + rest;
      assert s[0] == a[0] && s[1..] == a[1..] + rest;
      assert !StartsWith(s, "{{") by {
        if |a| >= 2 {
          assert !(a[0] == '{' && a[1] == '{');
          assert s[1] == a[1];
        }
        if |s| >= 2 {
          assert s[..2][0] == s[0] && s[..2][1] == s[1];
        }
      }
      assert LitOk(a[1..]) by {
        forall i | 0 <= i < |a[1..]| - 1 ensures !(a[1..][i] == '{' && a[1..][i + 1] == '{') {
          assert a[1..][i] == a[i + 1] && a[1..][i + 1] == a[i + 2];
        }
        if a[1..] != [] {
          assert a[1..][|a[1..]| - 1] == a[|a| - 1];
        }
      }
      assert after == (done + [a[0]]) + a[1..];
      LiteralPasses(done + [a[0]], a[1..], rest, key, value, after);
      ConsRest(a, ReplaceFrom(after, rest, key, value));
    }
  }

  /** Literal text inside which no placeholder can start passes through the replace unchanged. */
  lemma ReplaceAllLiteral(a: string, rest: string, key: string, value: string)
    requires LitOk(a)
    ensures ReplaceAll(a + rest, key, value) == a + ReplaceFrom(a, rest, key, value)
  {
    assert [] + a == a;
    LiteralPasses([], a, rest, key, value, a);
  }

  /** The first character of a non-empty text followed by the rest of it and then more. */
  lemma ConsRest(a: string, r: string)
    requires a != []
    ensures [a[0]] + (a[1..] + r) == a + r
  {
  }

  /** A rendered hole followed by more text, grouped from the right. */
  lemma HoleShape(key: string, lead: string, trail: string, rest: string)
    ensures RenderSegment(Hole(key, lead, trail)) + rest
      == "{{" + (lead + (key + (trail + ("}}" + rest))))
  {
    var open := "{{";
    var close := "}}";
    ConcatAssoc(open + lead + key + trail, close, rest);
    ConcatAssoc(open + lead + key, trail, close + rest);
    ConcatAssoc(open + lead, key, trail + (close + rest));
    ConcatAssoc(open, lead, key + (trail + (close + rest)));
  }

  /** The trailing spaces and closing braces of a hole close the match right after them. */
  lemma CloseAfterTrail(s: string, q: nat, trail: string, rest: string, e: nat)
    requires AllSpace(trail)
    requires q <= |s| && s[q..] == trail + ("}}" + rest)
    requires e == q + |trail| + 2
    ensures CloseAt(s, q) == Some(e)
  {
    SpaceRunAfterSpaces(trail, "}}" + rest);
    assert s[q + |trail|..] == "}}" + rest;
  }

  /** The placeholder for `key` is found and covers exactly the rendered hole. */
  lemma MatchOwnHole(key: string, lead: string, trail: string, rest: string)
    requires PlainKey(key) && AllSpace(lead) && AllSpace(trail)
    ensures MatchAt(RenderSegment(Hole(key, lead, trail)) + rest, key)
      == Some(|RenderSegment(Hole(key, lead, trail))|)
  {
    var h := RenderSegment(Hole(key, lead, trail));
    assert |h| == |lead| + |key| + |trail| + 4;
    HoleShape(key, lead, trail, rest);
    MatchSpelledHole(h + rest, key, lead, trail, rest);
  }

  /** A concatenation splits back into its parts. */
  lemma SplitConcat(x: string, y: string)
    ensures (x + y)[..|x|] == x && (x + y)[|x|..] == y
  {
  }

  /** Dropping `a` characters and then `b` more is dropping `a + b`. */
  lemma DropDrop(s: string, a: nat, b: nat)
    requires a + b <= |s|
    ensures s[a..][b..] == s[a + b..]
  {
  }

  /** The leading spaces of a spelled-out hole are exactly `lead`. */
  lemma LeadRun(s: string, lead: string, t1: string)
    requires AllSpace(lead) && t1 != [] && !IsSpace(t1[0])
    requires 2 <= |s| && s[2..] == lead + t1
    ensures SpaceRun(s[2..]) == |lead|
  {
    SpaceRunAfterSpaces(lead, t1);
  }

  /** With the longest run of leading spaces `j`, the match is the backtracking search from `j`. */
  lemma MatchFromRunNone(s: string, key: string, j: nat)
    requires StartsWith(s, "{{") && SpaceRun(s[2..]) == j && 2 + j <= |s| && TryLead(s, key, j).None?
    ensures MatchAt(s, key).None?
  {
  }

  /** A placeholder starting with "{{", `j` leading spaces, the name and a close at `q` matches up to
      the end of the close. */
  lemma MatchHit(s: string, key: string, j: nat, q: nat, e: nat)
    requires StartsWith(s, "{{") && SpaceRun(s[2..]) == j
    requires 2 + j <= |s| && StartsWith(s[2 + j..], key)
    requires q == 2 + j + |key| && q <= |s| && CloseAt(s, q) == Some(e)
    ensures MatchAt(s, key) == Some(e)
  {
  }

  /** The same, for the hole written out character group by character group. */
  lemma MatchSpelledHole(s: string, key: string, lead: string, trail: string, rest: string)
    requires PlainKey(key) && AllSpace(lead) && AllSpace(trail)
    requires s == "{{" + (lead + (key + (trail + ("}}" + rest))))
    ensures MatchAt(s, key) == Some(|lead| + |key| + |trail| + 4)
  {
    SpelledHoleParts(s, key, lead, trail, rest);
    MatchHit(s, key, |lead|, 2 + |lead| + |key|, |lead| + |key| + |trail| + 4);
  }

  /** The opening braces, the leading spaces, the name and the close of a spelled-out hole. */
  lemma SpelledHoleParts(s: string, key: string, lead: string, trail: string, rest: string)
    requires PlainKey(key) && AllSpace(lead) && AllSpace(trail)
    requires s == "{{" + (lead + (key + (trail + ("}}" + rest))))
    ensures StartsWith(s, "{{") && SpaceRun(s[2..]) == |lead|
    ensures 2 + |lead| + |key| <= |s| && StartsWith(s[2 + |lead|..], key)
    ensures CloseAt(s, 2 + |lead| + |key|) == Some(|lead| + |key| + |trail| + 4)
  {
    var t2 := trail + ("}}" + rest);
    assert (key + t2)[0] == key[0];
    OpenAndLead(s, lead, key + t2);
    NameAt(s, 2 + |lead|, key, t2);
    CloseAfterTrail(s, 2 + |lead| + |key|, trail, rest, |lead| + |key| + |trail| + 4);
  }

  /** After "{{" and a run of spaces, the text that follows starts right after the run. */
  lemma OpenAndLead(s: string, lead: string, t1: string)
    requires AllSpace(lead) && t1 != [] && !IsSpace(t1[0])
    requires s == "{{" + (lead + t1)
    ensures StartsWith(s, "{{") && SpaceRun(s[2..]) == |lead|
    ensures 2 + |lead| <= |s| && s[2 + |lead|..] == t1
  {
    SplitConcat("{{", lead + t1);
    SplitConcat(lead, t1);
    LeadRun(s, lead, t1);
    DropDrop(s, 2, |lead|);
  }

  /** A name at `p` is a prefix there, and what follows it starts at `p + |key|`. */
  lemma NameAt(s: string, p: nat, key: string, t2: string)
    requires p <= |s| && s[p..] == key + t2
    ensures p + |key| <= |s| && StartsWith(s[p..], key) && s[p + |key|..] == t2
  {
    SplitConcat(key, t2);
    DropDrop(s, p, |key|);
  }

  /** Where another name starts, the placeholder for `key` does not complete. */
  lemma OtherKeyNoMatch(s: string, p: nat, key: string, other: string, trail: string, rest: string)
    requires PlainKey(key) && PlainKey(other) && AllSpace(trail) && key != other
    requires p <= |s| && s[p..] == other + (trail + ("}}" + rest))
    ensures !(StartsWith(s[p..], key) && CloseAt(s, p + |key|).Some?)
  {
    var t2 := trail + ("}}" + rest);
    if |key| < |other| {
      if StartsWith(s[p..], key) {
        var q := p + |key|;
        assert s[q] == other[|key|];
        assert !IsSpace(s[q]) && s[q] != '}';
        assert s[q..][0] == s[q];
        assert SpaceRun(s[q..]) == 0;
        assert s[q..][..2][0] == s[q];
      }
    } else if |key| == |other| {
      assert s[p..][..|key|] == other;
    } else {
      assert t2[0] == if trail == [] then '}' else trail[0];
      PrefixCannotOverrun(key, other, t2);
    }
  }

  /** Backtracking through a run of spaces never succeeds when the attempt right after the run
      fails: a plain name cannot start with a space. */
  lemma {:induction false} TryLeadPastSpaces(s: string, key: string, n: nat, j: nat)
    requires PlainKey(key) && j <= n && 2 + n <= |s|
    requires forall i :: 2 <= i < 2 + n ==> IsSpace(s[i])
    requires !(StartsWith(s[2 + n..], key) && CloseAt(s, 2 + n + |key|).Some?)
    ensures TryLead(s, key, j).None?
    decreases j
  {
    if j < n {
      SpaceBlocksKey(s, 2 + j, key);
    }
    if j > 0 {
      TryLeadPastSpaces(s, key, n, j - 1);
    }
  }

  /** A plain name does not start at a space. */
  lemma SpaceBlocksKey(s: string, p: nat, key: string)
    requires PlainKey(key) && p < |s| && IsSpace(s[p])
    ensures !StartsWith(s[p..], key)
  {
    assert s[p..][0] == s[p];
  }

  /** A plain name longer than `other` cannot match `other` followed by a space or a brace. */
  lemma PrefixCannotOverrun(key: string, other: string, t2: string)
    requires PlainKey(key) && |key| > |other|
    requires t2 != [] && (IsSpace(t2[0]) || t2[0] == '}')
    ensures !StartsWith(other + t2, key)
  {
    var u := other + t2;
    assert u[|other|] == t2[0];
    assert key[|other|] != t2[0];
    if |key| <= |u| {
      assert u[..|key|][|other|] == t2[0];
    }
  }

  /** The text of a hole after its first brace contains no "{{" and ends in a closing brace. */
  lemma HoleTailLitOk(lead: string, other: string, trail: string)
    requires PlainKey(other) && AllSpace(lead) && AllSpace(trail)
    ensures LitOk(RenderSegment(Hole(other, lead, trail))[1..])
  {
    var h := RenderSegment(Hole(other, lead, trail));
    var tail := lead + other + trail + "}}";
    assert h == "{{" + tail;
    var u := h[1..];
    assert u == "{" + tail;
    HoleTailNoBrace(lead, other, trail);
    forall i | 0 <= i < |u| - 1 ensures !(u[i] == '{' && u[i + 1] == '{') {
      assert u[i + 1] == tail[i];
    }
    assert tail[|tail| - 1] == '}';
    assert u[|u| - 1] == tail[|tail| - 1];
  }

  /** The spaces, the name and the closing braces of a hole hold no opening brace. */
  lemma HoleTailNoBrace(lead: string, other: string, trail: string)
    requires PlainKey(other) && AllSpace(lead) && AllSpace(trail)
    ensures NoBrace(lead + other + trail + "}}")
  {
    var tail := lead + other + trail + "}}";
    forall i | 0 <= i < |tail| ensures tail[i] != '{' {
      if i < |lead| {
        assert tail[i] == lead[i];
      } else if i < |lead| + |other| {
        assert tail[i] == other[i - |lead|];
      } else if i < |lead| + |other| + |trail| {
        assert tail[i] == trail[i - |lead| - |other|];
      } else {
        assert tail[i] == "}}"[i - |lead| - |other| - |trail|];
      }
    }
  }

  /** A hole for `key` becomes the expansion of `value` (the value itself when it holds no `$`),
      and the scan resumes right after it. */
  lemma OwnHoleReplaced(done: string, key: string, lead: string, trail: string, rest: string,
                        value: string)
    requires PlainKey(key) && AllSpace(lead) && AllSpace(trail)
    ensures ReplaceFrom(done, RenderSegment(Hole(key, lead, trail)) + rest, key, value)
      == Expand(value, RenderSegment(Hole(key, lead, trail)), done, rest)
         + ReplaceFrom(done + RenderSegment(Hole(key, lead, trail)), rest, key, value)
  {
    var h := RenderSegment(Hole(key, lead, trail));
    MatchOwnHole(key, lead, trail, rest);
    SplitConcat(h, rest);
  }

  /** The patterns `String.prototype.replace` expands: `$&` puts the placeholder back and `$$`
      gives a single dollar sign. */
  lemma DollarPatterns()
    ensures ReplaceAll("{{KEY}}", "KEY", "$&") == "{{KEY}}"
    ensures ReplaceAll("{{KEY}}", "KEY", "$$") == "$"
  {
    var h := RenderSegment(Hole("KEY", "", ""));
    assert h == "{{KEY}}";
    UpperNamePlain("KEY");
    assert h + [] == h;
    OwnHoleReplaced([], "KEY", "", "", [], "$&");
    OwnHoleReplaced([], "KEY", "", "", [], "$$");
  }

  /** No placeholder for `key` starts at a hole for another name. */
  lemma OtherHoleNoMatch(key: string, other: string, lead: string, trail: string, rest: string)
    requires PlainKey(key) && PlainKey(other) && AllSpace(lead) && AllSpace(trail) && key != other
    ensures MatchAt(RenderSegment(Hole(other, lead, trail)) + rest, key).None?
  {
    var s := RenderSegment(Hole(other, lead, trail)) + rest;
    HoleShape(other, lead, trail, rest);
    var t1 := other + (trail + ("}}" + rest));
    assert t1[0] == other[0] && !IsSpace(other[0]);
    OpenAndLead(s, lead, t1);
    OtherKeyNoMatch(s, 2 + |lead|, key, other, trail, rest);
    forall i | 2 <= i < 2 + |lead| ensures IsSpace(s[i]) {
      assert s[i] == lead[i - 2];
    }
    TryLeadPastSpaces(s, key, |lead|, |lead|);
    MatchFromRunNone(s, key, |lead|);
  }

  /** A hole for another name is copied unchanged. */
  lemma OtherHoleKept(done: string, key: string, other: string, lead: string, trail: string,
                      rest: string, value: string)
    requires PlainKey(key) && PlainKey(other) && AllSpace(lead) && AllSpace(trail) && key != other
    ensures ReplaceFrom(done, RenderSegment(Hole(other, lead, trail)) + rest, key, value)
      == RenderSegment(Hole(other, lead, trail))
         + ReplaceFrom(done + RenderSegment(Hole(other, lead, trail)), rest, key, value)
  {
    var h := RenderSegment(Hole(other, lead, trail));
    var s := h + rest;
    OtherHoleNoMatch(key, other, lead, trail, rest);
    assert s[0] == h[0] && s[1..] == h[1..] + rest;
    HoleTailLitOk(lead, other, trail);
    assert done + h == (done + [h[0]]) + h[1..];
    LiteralPasses(done + [h[0]], h[1..], rest, key, value, done + h);
    ConsRest(h, ReplaceFrom(done + h, rest, key, value));
  }

  lemma SegmentReplace(done: string, g: Segment, rest: string, key: string, value: string)
    requires SegmentOk(g) && PlainKey(key)
    ensures ReplaceFrom(done, RenderSegment(g) + rest, key, value)
      == (if g.Hole? && g.key == key then Expand(value, RenderSegment(g), done, rest) else RenderSegment(g))
         + ReplaceFrom(done + RenderSegment(g), rest, key, value)
  {
    match g {
      case Lit(text) =>
        LiteralPasses(done, text, rest, key, value, done + text);
      case Hole(other, lead, trail) =>
        if other == key {
          OwnHoleReplaced(done, key, lead, trail, rest, value);
        } else {
          OtherHoleKept(done, key, other, lead, trail, rest, value);
        }
    }
  }

  lemma {:induction false} RenderedFrom(done: string, t: seq<Segment>, key: string, value: string)
    requires TemplateOk(t) && PlainKey(key)
    ensures ReplaceFrom(done, Render(t), key, value) == Render(FillIn(done, t, key, value))
    decreases |t|
  {
    if t != [] {
      var f := FillIn(done, t, key, value);
      var rest := FillIn(done + RenderSegment(t[0]), t[1..], key, value);
      assert f[0] == (if t[0].Hole? && t[0].key == key
                      then Lit(Expand(value, RenderSegment(t[0]), done, Render(t[1..]))) else t[0]);
      assert f[1..] == rest;
      assert SegmentOk(t[0]);
      SegmentReplace(done, t[0], Render(t[1..]), key, value);
      assert forall i :: 0 <= i < |t[1..]| ==> t[1..][i] == t[i + 1];
      RenderedFrom(done + RenderSegment(t[0]), t[1..], key, value);
    }
  }

  /** Without `$` in the value, every expansion is the value itself. */
  lemma {:induction false} FillInPlain(done: string, t: seq<Segment>, key: string, value: string)
    requires '$' !in value
    ensures FillIn(done, t, key, value) == Fill(t, key, value)
    decreases |t|
  {
    if t != [] {
      FillInPlain(done + RenderSegment(t[0]), t[1..], key, value);
    }
  }

  /** Substituting one variable in a rendered template replaces exactly that variable's
      placeholders, wherever they are and however they are spaced, each by the expansion of the
      value; a value without `$` is inserted as it is. */
  lemma ReplaceRendered(t: seq<Segment>, key: string, value: string)
    requires TemplateOk(t) && PlainKey(key)
    ensures ReplaceAll(Render(t), key, value) == Render(FillIn([], t, key, value))
    ensures '$' !in value ==> ReplaceAll(Render(t), key, value) == Render(Fill(t, key, value))
  {
    RenderedFrom([], t, key, value);
    if '$' !in value {
      FillInPlain([], t, key, value);
    }
  }

  /** Brace-free text is literal text inside which no placeholder can start. */
  lemma NoBraceLitOk(s: string)
    requires NoBrace(s)
    ensures LitOk(s)
  {
  }

  /** Variables with plain names and values free of braces and of `$`: interpolating a rendered
      template is rendering the template with every placeholder filled, in entry order. */
  lemma {:induction false} InterpolateRendered(t: seq<Segment>, vars: seq<(string, string)>)
    requires TemplateOk(t)
    requires forall i :: 0 <= i < |vars| ==>
      PlainKey(vars[i].0) && NoBrace(vars[i].1) && '$' !in vars[i].1
    ensures Interpolate(Render(t), vars) == Render(FillAll(t, vars))
    decreases |vars|
  {
    if vars != [] {
      ReplaceRendered(t, vars[0].0, vars[0].1);
      var t' := Fill(t, vars[0].0, vars[0].1);
      NoBraceLitOk(vars[0].1);
      assert TemplateOk(t') by {
        forall i | 0 <= i < |t'| ensures SegmentOk(t'[i]) {
          assert SegmentOk(t[i]);
        }
      }
      assert forall i :: 0 <= i < |vars[1..]| ==> vars[1..][i] == vars[i + 1];
      InterpolateRendered(t', vars[1..]);
    }
  }

  // ---------------------------------------------------------------------------------------------
  // Variables from the configuration

  function BoolText(b: bool): string {
    if b then "true" else "false"
  }

  /** `getTemplateVariables`: the seven variables, in declaration order; no name is given twice,
      so each placeholder has exactly one variable to fill it. */
  function GetTemplateVariables(config: Config): (r: seq<(string, string)>)
    ensures |r| == 7
    ensures forall i, j :: 0 <= i < j < |r| ==> r[i].0 != r[j].0
    ensures r[0].1 == BoolText(config.typescript) && r[6].1 == config.theme
  {
    [("TYPESCRIPT", BoolText(config.typescript)),
     ("TAILWIND", BoolText(config.tailwind)),
     ("COMPONENTS_PATH", config.components),
     ("UTILS_PATH", config.utils),
     ("LIB_PATH", config.lib),
     ("HOOKS_PATH", config.hooks),
     ("THEME_PATH", config.theme)]
  }

  /** A path free of braces and of `$`, as the default layout's paths are. */
  predicate PlainPath(p: string) {
    NoBrace(p) && '$' !in p
  }

  predicate PlainPaths(config: Config) {
    PlainPath(config.components) && PlainPath(config.utils) && PlainPath(config.lib)
    && PlainPath(config.hooks) && PlainPath(config.theme)
  }

  /** Every variable name is one the substitution can find, and no value can introduce a
      placeholder for a later variable, so templates over these names render exactly. */
  lemma TemplateVariablesPlain(config: Config)
    requires PlainPaths(config)
    ensures forall i :: 0 <= i < |GetTemplateVariables(config)| ==>
      PlainKey(GetTemplateVariables(config)[i].0) && PlainPath(GetTemplateVariables(config)[i].1)
  {
    var vars := GetTemplateVariables(config);
    forall i | 0 <= i < |vars| ensures PlainKey(vars[i].0) && PlainPath(vars[i].1) {
      UpperNamePlain(vars[i].0);
    }
  }

  /** A name of capital letters and underscores is one the substitution can find. */
  lemma UpperNamePlain(k: string)
    requires |k| >= 1 && forall i :: 0 <= i < |k| ==> 'A' <= k[i] <= 'Z' || k[i] == '_'
    ensures PlainKey(k)
  {
  }

  /** A placeholder for one of the seven names, however it is spaced, becomes that
      configuration value. */
  lemma PlaceholderBecomesValue(config: Config, lead: string, trail: string)
    requires PlainPaths(config) && AllSpace(lead) && AllSpace(trail)
    ensures Interpolate("{{" + lead + "THEME_PATH" + trail + "}}", GetTemplateVariables(config))
      == config.theme
    ensures Interpolate("{{" + lead + "TYPESCRIPT" + trail + "}}", GetTemplateVariables(config))
      == BoolText(config.typescript)
  {
    ThemePlaceholder(config, lead, trail);
    TypescriptPlaceholder(config, lead, trail);
  }

  lemma ThemePlaceholder(config: Config, lead: string, trail: string)
    requires PlainPaths(config) && AllSpace(lead) && AllSpace(trail)
    ensures Interpolate("{{" + lead + "THEME_PATH" + trail + "}}", GetTemplateVariables(config))
      == config.theme
  {
    var vars := GetTemplateVariables(config);
    TemplateVariablesPlain(config);
    var tt := [Hole("THEME_PATH", lead, trail)];
    UpperNamePlain("THEME_PATH");
    assert Render(tt) == "{{" + lead + "THEME_PATH" + trail + "}}";
    InterpolateRendered(tt, vars);
    assert "THEME_PATH"[1] != "TYPESCRIPT"[1] && "THEME_PATH"[0] != "UTILS_PATH"[0];
    assert "THEME_PATH"[0] != "HOOKS_PATH"[0];
    FillAllFirst("THEME_PATH", lead, trail, vars, 6);
  }

  lemma TypescriptPlaceholder(config: Config, lead: string, trail: string)
    requires PlainPaths(config) && AllSpace(lead) && AllSpace(trail)
    ensures Interpolate("{{" + lead + "TYPESCRIPT" + trail + "}}", GetTemplateVariables(config))
      == BoolText(config.typescript)
  {
    var vars := GetTemplateVariables(config);
    TemplateVariablesPlain(config);
    var ts := [Hole("TYPESCRIPT", lead, trail)];
    UpperNamePlain("TYPESCRIPT");
    assert Render(ts) == "{{" + lead + "TYPESCRIPT" + trail + "}}";
    InterpolateRendered(ts, vars);
    FillAllFirst("TYPESCRIPT", lead, trail, vars, 0);
  }

  lemma {:induction false} FillAllLit(x: string, vars: seq<(string, string)>)
    ensures FillAll([Lit(x)], vars) == [Lit(x)]
    decreases |vars|
  {
    if vars != [] {
      FillAllLit(x, vars[1..]);
    }
  }

  /** A lone placeholder is filled by the first variable of its name; later ones find no hole. */
  lemma {:induction false} FillAllFirst(k: string, lead: string, trail: string,
                                        vars: seq<(string, string)>, i: nat)
    requires i < |vars| && vars[i].0 == k
    requires forall j :: 0 <= j < i ==> vars[j].0 != k
    ensures FillAll([Hole(k, lead, trail)], vars) == [Lit(vars[i].1)]
    decreases i
  {
    if i == 0 {
      FillAllLit(vars[0].1, vars[1..]);
    } else {
      assert Fill([Hole(k, lead, trail)], vars[0].0, vars[0].1) == [Hole(k, lead, trail)];
      assert forall j :: 0 <= j < i - 1 ==> vars[1..][j] == vars[j + 1];
      FillAllFirst(k, lead, trail, vars[1..], i - 1);
    }
  }

  // ---------------------------------------------------------------------------------------------
  // Target paths

  predicate OccursAt(s: string, pat: string, i: nat) {
    i + |pat| <= |s| && s[i..i + |pat|] == pat
  }

  /** The first index where `pat` occurs in `s`, searching from `from`. */
  function FindFrom(s: string, pat: string, from: nat): (r: Option<nat>)
    ensures r.Some? ==> (from <= r.value && OccursAt(s, pat, r.value)
      && forall j :: from <= j < r.value ==> !OccursAt(s, pat, j))
    ensures r.None? ==> forall j :: from <= j ==> !OccursAt(s, pat, j)
    decreases |s| - from
  {
    if from + |pat| > |s| then None
    else if OccursAt(s, pat, from) then Some(from)
    else FindFrom(s, pat, from + 1)
  }

  /** `s.replace(pat, rep)` with a string pattern: only the first occurrence is replaced. */
  function ReplaceFirst(s: string, pat: string, rep: string): string {
    match FindFrom(s, pat, 0)
    case Some(i) => s[..i] + rep + s[i + |pat|..]
    case None => s
  }

  /** Where a template file is written: its relative path with the first ".template" removed,
      nine characters shorter; a path without one is kept. */
  function TargetName(file: string): (r: string)
    ensures FindFrom(file, ".template", 0).None? ==> r == file
    ensures FindFrom(file, ".template", 0).Some? ==>
      var i := FindFrom(file, ".template", 0).value;
      r == file[..i] + file[i + 9..] && |r| == |file| - 9
  {
    ReplaceFirst(file, ".template", "")
  }

  /** A file is interpolated iff it ends in ".template.tsx" or ".template.ts". */
  predicate IsTemplateFile(file: string) {
    EndsWith(file, ".template.tsx") || EndsWith(file, ".template.ts")
  }

  /** A template file whose stem has no ".template" in it loses exactly that suffix part:
      "ui/button.template.tsx" is written as "ui/button.tsx". */
  lemma TargetNameOfTemplate(stem: string, ext: string)
    requires ext == ".tsx" || ext == ".ts"
    requires forall j :: !OccursAt(stem, ".template", j)
    ensures IsTemplateFile(stem + ".template" + ext)
    ensures TargetName(stem + ".template" + ext) == stem + ext
  {
    var f := stem + ".template" + ext;
    TemplateFoundAfterStem(stem, ext);
    assert f[..|stem|] == stem;
    assert f[|stem| + 9..] == ext;
    assert TargetName(f) == stem + "" + ext;
    assert stem + "" + ext == stem + ext;
    TemplateSuffix(stem, ext);
  }

  /** The first ".template" of the name is the one right after the stem. */
  lemma TemplateFoundAfterStem(stem: string, ext: string)
    requires forall j :: !OccursAt(stem, ".template", j)
    ensures FindFrom(stem + ".template" + ext, ".template", 0) == Some(|stem|)
  {
    var f := stem + ".template" + ext;
    assert OccursAt(f, ".template", |stem|) by {
      assert f[|stem|..|stem| + 9] == ".template";
    }
    forall j | 0 <= j < |stem| ensures !OccursAt(f, ".template", j) {
      NoOccurrenceInStem(stem, ext, j);
    }
  }

  /** An occurrence starting inside the stem would lie in the stem or straddle its end, where the
      dot of the added ".template" meets a letter of the pattern. */
  lemma NoOccurrenceInStem(stem: string, ext: string, j: nat)
    requires j < |stem| && !OccursAt(stem, ".template", j)
    ensures !OccursAt(stem + ".template" + ext, ".template", j)
  {
    var f := stem + ".template" + ext;
    if j + 9 <= |stem| {
      assert f[j..j + 9] == stem[j..j + 9];
    } else {
      var k := |stem| - j;
      assert f[|stem|] == '.';
      assert 1 <= k < 9 && ".template"[k] != '.';
      if j + 9 <= |f| {
        assert f[j..j + 9][k] == '.';
      }
    }
  }

  /** The name ends in ".template.tsx" or ".template.ts". */
  lemma TemplateSuffix(stem: string, ext: string)
    requires ext == ".tsx" || ext == ".ts"
    ensures IsTemplateFile(stem + ".template" + ext)
  {
    var f := stem + ".template" + ext;
    assert EndsWith(f, ".template" + ext) by {
      assert f[|f| - |".template" + ext|..] == ".template" + ext;
    }
    if ext == ".tsx" {
      assert ".template" + ext == ".template.tsx";
    } else {
      assert ".template" + ext == ".template.ts";
    }
  }

  // ---------------------------------------------------------------------------------------------
  // Copying a template directory

  /** The files after processing `names` in order, stopping at the first failure: a template is
      read as text, interpolated and written; any other file is copied as it is. */
  function CopyPlan(fs: Files, sourceDir: Path, targetDir: Path, names: seq<string>,
                    vars: seq<(string, string)>, unwritable: set<Path>): (Files, bool)
    decreases |names|
  {
    if names == [] then (fs, true)
    else
      var src := Join(sourceDir, names[0]);
      var dst := Join(targetDir, TargetName(names[0]));
      if src !in fs || dst in unwritable || (IsTemplateFile(names[0]) && !fs[src].Text?) then (fs, false)
      else
        var entry := if IsTemplateFile(names[0]) then Text(Interpolate(fs[src].text, vars)) else fs[src];
        CopyPlan(fs[dst := entry], sourceDir, targetDir, names[1..], vars, unwritable)
  }

  /** Paths that are no file's target keep their entry (or stay absent). */
  lemma {:induction false} CopyPlanFrame(fs: Files, sourceDir: Path, targetDir: Path, names: seq<string>,
                                         vars: seq<(string, string)>, unwritable: set<Path>, p: Path)
    requires forall i :: 0 <= i < |names| ==> p != Join(targetDir, TargetName(names[i]))
    ensures var out := CopyPlan(fs, sourceDir, targetDir, names, vars, unwritable).0;
      (p in out <==> p in fs) && (p in fs ==> out[p] == fs[p])
    decreases |names|
  {
    if names != [] {
      var src := Join(sourceDir, names[0]);
      var dst := Join(targetDir, TargetName(names[0]));
      if !(src !in fs || dst in unwritable || (IsTemplateFile(names[0]) && !fs[src].Text?)) {
        var entry := if IsTemplateFile(names[0]) then Text(Interpolate(fs[src].text, vars)) else fs[src];
        assert forall i :: 0 <= i < |names[1..]| ==> names[1..][i] == names[i + 1];
        CopyPlanFrame(fs[dst := entry], sourceDir, targetDir, names[1..], vars, unwritable, p);
      }
    }
  }

  /** When the whole run succeeds, the `i`-th file's target holds its interpolated source text
      (a template) or its source entry (any other file), provided no earlier file overwrote that
      source and no later file overwrites that target. */
  lemma {:induction false} CopyPlanWritesFile(fs: Files, sourceDir: Path, targetDir: Path,
                                              names: seq<string>, vars: seq<(string, string)>,
                                              unwritable: set<Path>, i: nat)
    requires i < |names|
    requires forall j :: 0 <= j < i ==>
      Join(targetDir, TargetName(names[j])) != Join(sourceDir, names[i])
    requires forall j :: i < j < |names| ==>
      Join(targetDir, TargetName(names[j])) != Join(targetDir, TargetName(names[i]))
    requires CopyPlan(fs, sourceDir, targetDir, names, vars, unwritable).1
    ensures var src := Join(sourceDir, names[i]);
      var dst := Join(targetDir, TargetName(names[i]));
      var out := CopyPlan(fs, sourceDir, targetDir, names, vars, unwritable).0;
      src in fs && (IsTemplateFile(names[i]) ==> fs[src].Text?)
      && dst in out
      && out[dst] == (if IsTemplateFile(names[i]) then Text(Interpolate(fs[src].text, vars)) else fs[src])
  {
    var before := names[..i];
    var rest := names[i..];
    assert names == before + rest;
    CopyPlanSplit(fs, sourceDir, targetDir, before, rest, vars, unwritable);
    var mid := CopyPlan(fs, sourceDir, targetDir, before, vars, unwritable);
    assert mid.1;
    var src := Join(sourceDir, names[i]);
    assert forall j :: 0 <= j < |before| ==> before[j] == names[j];
    CopyPlanFrame(fs, sourceDir, targetDir, before, vars, unwritable, src);
    assert rest[0] == names[i];
    assert forall j :: 0 < j < |rest| ==> rest[j] == names[i + j];
    CopyPlanWritesFirst(mid.0, sourceDir, targetDir, rest, vars, unwritable);
  }

  /** Processing two runs of files is processing the first and then, if it succeeded, the second
      on its result. */
  lemma {:induction false} CopyPlanSplit(fs: Files, sourceDir: Path, targetDir: Path, a: seq<string>,
                                         b: seq<string>, vars: seq<(string, string)>, unwritable: set<Path>)
    ensures CopyPlan(fs, sourceDir, targetDir, a + b, vars, unwritable)
      == var p := CopyPlan(fs, sourceDir, targetDir, a, vars, unwritable);
         if p.1 then CopyPlan(p.0, sourceDir, targetDir, b, vars, unwritable) else p
    decreases |a|
  {
    if a == [] {
      assert a + b == b;
    } else {
      assert (a + b)[0] == a[0] && (a + b)[1..] == a[1..] + b;
      var src := Join(sourceDir, a[0]);
      var dst := Join(targetDir, TargetName(a[0]));
      if !(src !in fs || dst in unwritable || (IsTemplateFile(a[0]) && !fs[src].Text?)) {
        var entry := if IsTemplateFile(a[0]) then Text(Interpolate(fs[src].text, vars)) else fs[src];
        CopyPlanSplit(fs[dst := entry], sourceDir, targetDir, a[1..], b, vars, unwritable);
      }
    }
  }

  /** The first file's case: its target is written from the untouched source and no later file
      writes it again. */
  lemma CopyPlanWritesFirst(fs: Files, sourceDir: Path, targetDir: Path, names: seq<string>,
                            vars: seq<(string, string)>, unwritable: set<Path>)
    requires names != []
    requires forall j :: 0 < j < |names| ==>
      Join(targetDir, TargetName(names[j])) != Join(targetDir, TargetName(names[0]))
    requires CopyPlan(fs, sourceDir, targetDir, names, vars, unwritable).1
    ensures var src := Join(sourceDir, names[0]);
      var dst := Join(targetDir, TargetName(names[0]));
      var out := CopyPlan(fs, sourceDir, targetDir, names, vars, unwritable).0;
      src in fs && (IsTemplateFile(names[0]) ==> fs[src].Text?)
      && dst in out
      && out[dst] == (if IsTemplateFile(names[0]) then Text(Interpolate(fs[src].text, vars)) else fs[src])
  {
    var dst0 := Join(targetDir, TargetName(names[0]));
    var entry := CopyStep(fs, sourceDir, targetDir, names, vars, unwritable);
    var tail := names[1..];
    assert forall j :: 0 <= j < |tail| ==> tail[j] == names[j + 1];
    CopyPlanFrame(fs[dst0 := entry], sourceDir, targetDir, tail, vars, unwritable, dst0);
  }

  /** A successful run writes its first file and goes on with the rest: the entry written. */
  lemma CopyStep(fs: Files, sourceDir: Path, targetDir: Path, names: seq<string>,
                 vars: seq<(string, string)>, unwritable: set<Path>) returns (entry: Entry)
    requires names != [] && CopyPlan(fs, sourceDir, targetDir, names, vars, unwritable).1
    ensures var src := Join(sourceDir, names[0]);
      && src in fs && (IsTemplateFile(names[0]) ==> fs[src].Text?)
      && entry == (if IsTemplateFile(names[0]) then Text(Interpolate(fs[src].text, vars)) else fs[src])
      && CopyPlan(fs, sourceDir, targetDir, names, vars, unwritable)
         == CopyPlan(fs[Join(targetDir, TargetName(names[0])) := entry], sourceDir, targetDir, names[1..], vars, unwritable)
  {
    var src := Join(sourceDir, names[0]);
    entry := if IsTemplateFile(names[0]) then Text(Interpolate(fs[src].text, vars)) else fs[src];
  }

  /** `copyTemplateFiles` over the listed relative file names: templates are interpolated into
      their rewritten target path, other files copied; the first failure is rethrown and what was
      written before it stays. */
  method CopyTemplateFiles(host: Host, sourceDir: Path, targetDir: Path, names: seq<string>,
                           vars: seq<(string, string)>) returns (r: Outcome)
    modifies host`files
    ensures (host.files, r.Pass?) == CopyPlan(old(host.files), sourceDir, targetDir, names, vars, host.unwritable)
  {
    var i := 0;
    while i < |names|
      invariant 0 <= i <= |names|
      invariant CopyPlan(old(host.files), sourceDir, targetDir, names, vars, host.unwritable)
        == CopyPlan(host.files, sourceDir, targetDir, names[i..], vars, host.unwritable)
    {
      var file := names[i];
      var sourcePath := Join(sourceDir, file);
      var targetPath := Join(targetDir, TargetName(file));
      assert names[i..][0] == file && names[i..][1..] == names[i + 1..];
      if IsTemplateFile(file) {
        var content := host.ReadText(sourcePath);
        if content.Err? {
          return Fail(content.error);
        }
        var processed := InterpolateVariables(content.value, vars);
        var written := host.WriteFile(targetPath, processed);
        if written.Fail? {
          return written;
        }
      } else {
        var copied := host.CopyFile(sourcePath, targetPath);
        if copied.Fail? {
          return copied;
        }
      }
      i := i + 1;
    }
    assert names[i..] == [];
    return Pass;
  }

  // ---------------------------------------------------------------------------------------------
  // The generic component template

  const TemplateHead: string := "import React from 'react';\nimport { View, StyleSheet } from 'react-native';\nimport { useTheme } from '../../lib/theme';\n\ninterface "
  const TemplateMiddle: string := "Props {\n  children?: React.ReactNode;\n}\n\nexport function "
  const TemplateCall: string := "({ children }: "
  const TemplateTail: string := "Props) {\n  const theme = useTheme();\n\n  return (\n    <View style={styles.container}>\n      {children}\n    </View>\n  );\n}\n\nconst styles = StyleSheet.create({\n  container: {\n    // Add your styles here\n  },\n});\n"

  /** `createComponentTemplate`: a component skeleton named after `name`. The name is both the
      props-interface prefix and the function name; the skeleton grows by three characters per
      character of the name. */
  function CreateComponentTemplate(name: string): (t: string)
    ensures |t| == |TemplateHead| + |TemplateMiddle| + |TemplateCall| + |TemplateTail| + 3 * |name|
    ensures var h := |TemplateHead|;
      var m := |TemplateMiddle|;
      && t[h..h + |name|] == name
      && t[h + |name|..h + |name| + m] == TemplateMiddle
      && t[h + |name| + m..h + 2 * |name| + m] == name
  {
    var t := TemplateHead + name + TemplateMiddle + name + TemplateCall + name + TemplateTail;
    NameSlots(t, TemplateHead, name, TemplateMiddle, TemplateCall, TemplateTail);
    t
  }

  lemma NameSlots(s: string, h: string, name: string, m: string, c: string, t: string)
    requires s == h + name + m + name + c + name + t
    ensures && s[|h|..|h| + |name|] == name
      && s[|h| + |name|..|h| + |name| + |m|] == m
      && s[|h| + |name| + |m|..|h| + 2 * |name| + |m|] == name
      && |s| == |h| + |m| + |c| + |t| + 3 * |name|
  {
    assert s == h + (name + (m + (name + (c + name + t))));
  }

  /** Different names give different skeletons. */
  lemma ComponentTemplateInjective(a: string, b: string)
    requires CreateComponentTemplate(a) == CreateComponentTemplate(b)
    ensures a == b
  {
    assert |a| == |b|;
  }
}
