/** Small value types and string helpers shared by the rest of the model. */
module Util {

  /** A value that may be absent: JavaScript's `undefined` / `null`. */
  datatype Option<+T> = None | Some(value: T) {
    function GetOr(default: T): T {
      match this
      case Some(v) => v
      case None => default
    }
  }

  /** The result of an operation that can throw: `Fail` carries the error message. */
  datatype Outcome = Pass | Fail(error: string)

  /** A value-returning operation that can throw. */
  datatype Result<+T> = Ok(value: T) | Err(error: string)

  /** Names every plain JavaScript object answers through its prototype with a truthy value. */
  const PrototypeNames: set<string> := {
    "constructor", "__proto__", "hasOwnProperty", "isPrototypeOf", "propertyIsEnumerable",
    "toLocaleString", "toString", "valueOf", "__defineGetter__", "__defineSetter__",
    "__lookupGetter__", "__lookupSetter__"}

  predicate StartsWith(s: string, prefix: string) {
    |prefix| <= |s| && s[..|prefix|] == prefix
  }

  predicate EndsWith(s: string, suffix: string) {
    |suffix| <= |s| && s[|s| - |suffix|..] == suffix
  }

  predicate Distinct<T(==)>(s: seq<T>) {
    forall i, j :: 0 <= i < j < |s| ==> s[i] != s[j]
  }

  /** `Array.prototype.join(sep)`. */
  function JoinWith(parts: seq<string>, sep: string): string {
    if |parts| == 0 then ""
    else if |parts| == 1 then parts[0]
    else parts[0] + sep + JoinWith(parts[1..], sep)
  }

  /** `String.prototype.split(' ')`: cuts at every single space; never empty. */
  function SplitOnSpace(s: string): (words: seq<string>)
    ensures |words| >= 1
  {
    if s == [] then [""]
    else if s[0] == ' ' then [""] + SplitOnSpace(s[1..])
    else
      var rest := SplitOnSpace(s[1..]);
      [[s[0]] + rest[0]] + rest[1..]
  }

  /** Concatenation regroups freely. */
  lemma ConcatAssoc(x: string, y: string, z: string)
    ensures (x + y) + z == x + (y + z)
  {
  }

  /** A word without spaces splits to itself. */
  lemma {:induction false} SplitWord(w: string)
    requires ' ' !in w
    ensures SplitOnSpace(w) == [w]
  {
    if w != [] {
      SplitWord(w[1..]);
      assert [w[0]] + w[1..] == w;
    }
  }

  /** Splitting `w + " " + rest` peels off exactly the word `w`. */
  lemma {:induction false} SplitFirstWord(w: string, rest: string)
    requires ' ' !in w
    ensures SplitOnSpace(w + " " + rest) == [w] + SplitOnSpace(rest)
  {
    var s := w + " " + rest;
    if w == [] {
      assert s[0] == ' ' && s[1..] == rest;
    } else {
      assert s[0] == w[0];
      assert s[1..] == w[1..] + " " + rest;
      SplitFirstWord(w[1..], rest);
      assert [w[0]] + w[1..] == w;
    }
  }

  /** Splitting a space-joined list of space-free words gives the words back. */
  lemma {:induction false} SplitJoin(words: seq<string>)
    requires |words| >= 1
    requires forall i :: 0 <= i < |words| ==> ' ' !in words[i]
    ensures SplitOnSpace(JoinWith(words, " ")) == words
  {
    if |words| == 1 {
      SplitWord(words[0]);
    } else {
      SplitJoin(words[1..]);
      SplitFirstWord(words[0], JoinWith(words[1..], " "));
    }
  }

  function DigitChar(d: nat): char
    requires d < 10
  {
    "0123456789"[d]
  }

  /** Decimal rendering of a natural number, as `${n}` gives it. */
  function NatToString(n: nat): (s: string)
    ensures |s| >= 1
    decreases n
  {
    if n < 10 then [DigitChar(n)] else NatToString(n / 10) + [DigitChar(n % 10)]
  }

  /** The length JavaScript's `.length` reports: UTF-16 code units, two for a character outside
      the Basic Multilingual Plane. */
  function Utf16Length(s: string): (n: nat)
    ensures n >= |s|
    decreases |s|
  {
    if s == [] then 0 else (if s[0] as int >= 0x1_0000 then 2 else 1) + Utf16Length(s[1..])
  }

  /** Code units add up over a concatenation. */
  lemma {:induction false} Utf16Concat(a: string, b: string)
    ensures Utf16Length(a + b) == Utf16Length(a) + Utf16Length(b)
    decreases |a|
  {
    if a == [] {
      assert a + b == b;
    } else {
      assert (a + b)[0] == a[0];
      assert (a + b)[1..] == a[1..] + b;
      Utf16Concat(a[1..], b);
    }
  }

  /** A string of `n` spaces is `n` code units long. */
  lemma {:induction false} Utf16Spaces(n: nat)
    ensures Utf16Length(seq(n, _ => ' ')) == n
  {
    if n > 0 {
      assert seq(n, _ => ' ')[1..] == seq(n - 1, _ => ' ');
      Utf16Spaces(n - 1);
    }
  }

  /** `s.padEnd(width)`: pads with spaces until `width` code units; never truncates. */
  function PadEnd(s: string, width: int): (r: string)
    ensures |r| == |s| + if Utf16Length(s) < width then width - Utf16Length(s) else 0
    ensures r[..|s|] == s
    ensures forall i :: |s| <= i < |r| ==> r[i] == ' '
  {
    if Utf16Length(s) < width then s + seq(width - Utf16Length(s), _ => ' ') else s
  }

  /** The padded string is exactly `width` code units long, or the string itself if it is
      already that long. */
  lemma PadEndUnits(s: string, width: int)
    ensures Utf16Length(PadEnd(s, width)) == if Utf16Length(s) < width then width else Utf16Length(s)
  {
    if Utf16Length(s) < width {
      Utf16Concat(s, seq(width - Utf16Length(s), _ => ' '));
      Utf16Spaces(width - Utf16Length(s));
    }
  }
}
