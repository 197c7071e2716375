/**
  The few Python built-ins the core relies on, stated over Dafny values:
  the shape of a dynamically typed value, `str()`, `float()`, `str.isspace`,
  `str.lower`, `str.strip`, `str.split()`, `sep.join`, `in` on strings,
  the slice `s[:n]` and `int()` truncation.
*/
module Builtins {

  datatype Option<T> = None | Some(value: T)

  /** A dynamically typed Python value as it can appear in a record or a filter.
      `Num` is an `int` or a `float`; it carries the text `str()` prints for it,
      because Python's float formatting is not part of this model.
      `Other` is any other object (a list, a dict, ...), known only by its `str()`. */
  datatype Value =
    | Null
    | Bool(b: bool)
    | Num(x: real, text: string)
    | Str(s: string)
    | Other(text: string)

  /** `str(v)` */
  function ToStr(v: Value): string
  {
    match v
    case Null => "None"
    case Bool(b) => if b then "True" else "False"
    case Num(_, t) => t
    case Str(s) => s
    case Other(t) => t
  }

  /** `float(v)`; `None` stands for the ValueError or TypeError Python raises. */
  function ToFloat(v: Value): Option<real>
  {
    match v
    case Null => None
    case Bool(b) => Some(if b then 1.0 else 0.0)
    case Num(x, _) => Some(x)
    case Str(s) => ParseFloat(s)
    case Other(_) => None
  }

  /** The number a comparison `x >= v` sees when `v` is compared with a float:
      ints, floats and bools compare numerically, anything else raises TypeError. */
  function AsNumber(v: Value): Option<real>
  {
    match v
    case Bool(b) => Some(if b then 1.0 else 0.0)
    case Num(x, _) => Some(x)
    case _ => None
  }

  // ---------------------------------------------------------------------------
  // Characters

  /** `c.isspace()`: the characters Python treats as whitespace in `strip`,
      `split()` and the regular-expression class `\s`. */
  predicate IsSpace(c: char)
  {
    var n := c as int;
    (9 <= n <= 13) || (0x1C <= n <= 0x20) || n == 0x85 || n == 0xA0 || n == 0x1680
    || (0x2000 <= n <= 0x200A) || n == 0x2028 || n == 0x2029 || n == 0x202F
    || n == 0x205F || n == 0x3000
  }

  predicate IsUpper(c: char)
  {
    ('A' <= c <= 'Z') || (0xC0 <= c as int <= 0xDE && c as int != 0xD7)
  }

  /** `c.lower()` for ASCII and the Latin-1 letters. */
  function LowerChar(c: char): (r: char)
    ensures !IsUpper(r)
    ensures IsSpace(r) <==> IsSpace(c)
    ensures !IsUpper(c) ==> r == c
  {
    if IsUpper(c) then (c as int + 32) as char else c
  }

  function Lower(s: string): (r: string)
    ensures |r| == |s|
    ensures forall k :: 0 <= k < |s| ==> r[k] == LowerChar(s[k])
  {
    seq(|s|, k requires 0 <= k < |s| => LowerChar(s[k]))
  }

  // ---------------------------------------------------------------------------
  // strip

  function TrimStart(s: string): (r: string)
    ensures |r| <= |s| && r == s[|s| - |r|..]
    ensures r == [] || !IsSpace(r[0])
    ensures forall k :: 0 <= k < |s| - |r| ==> IsSpace(s[k])
  {
    if s != [] && IsSpace(s[0]) then TrimStart(s[1..]) else s
  }

  function TrimEnd(s: string): (r: string)
    ensures |r| <= |s| && r == s[..|r|]
    ensures r == [] || !IsSpace(r[|r| - 1])
    ensures forall k :: |r| <= k < |s| ==> IsSpace(s[k])
  {
    if s != [] && IsSpace(s[|s| - 1]) then TrimEnd(s[..|s| - 1]) else s
  }

  /** `s.strip()`: removes leading and trailing whitespace. */
  function Strip(s: string): (r: string)
    ensures |r| <= |s|
    ensures r == [] || (!IsSpace(r[0]) && !IsSpace(r[|r| - 1]))
    ensures forall k :: 0 <= k < |r| ==> r[k] in s
    ensures (forall k :: 0 <= k < |s| ==> IsSpace(s[k])) ==> r == []
  {
    var t := TrimStart(s);
    var r := TrimEnd(t);
    assert forall k :: 0 <= k < |r| ==> r[k] == s[|s| - |t| + k];
    r
  }

  lemma StripUnchanged(s: string)
    requires s == [] || (!IsSpace(s[0]) && !IsSpace(s[|s| - 1]))
    ensures Strip(s) == s
  {
  }

  // ---------------------------------------------------------------------------
  // split() and join

  /** The longest prefix of `s` free of whitespace. */
  function TakeWord(s: string): (w: string)
    ensures |w| <= |s| && w == s[..|w|]
    ensures forall k :: 0 <= k < |w| ==> !IsSpace(w[k])
    ensures |w| == |s| || IsSpace(s[|w|])
  {
    if s == [] || IsSpace(s[0]) then [] else [s[0]] + TakeWord(s[1..])
  }

  /** `s.split()`: the maximal runs of non-whitespace characters, in order. */
  function Split(s: string): (ws: seq<string>)
    decreases |s|
  {
    if s == [] then []
    else if IsSpace(s[0]) then Split(s[1..])
    else
      var w := TakeWord(s);
      [w] + Split(s[|w|..])
  }

  /** `sep.join(parts)` */
  function Join(sep: string, parts: seq<string>): string
  {
    if |parts| == 0 then ""
    else if |parts| == 1 then parts[0]
    else parts[0] + sep + Join(sep, parts[1..])
  }

  function Concat<T>(xss: seq<seq<T>>): seq<T>
  {
    if xss == [] then [] else xss[0] + Concat(xss[1..])
  }

  lemma {:induction false} ConcatAppend<T>(xss: seq<seq<T>>, ys: seq<T>)
    ensures Concat(xss + [ys]) == Concat(xss) + ys
  {
    if xss == [] {
      assert Concat([ys][1..]) == [];
    } else {
      assert (xss + [ys])[1..] == xss[1..] + [ys];
      ConcatAppend(xss[1..], ys);
    }
  }

  lemma {:induction false} ConcatMember<T>(xss: seq<seq<T>>, x: T)
    ensures x in Concat(xss) <==> exists i :: 0 <= i < |xss| && x in xss[i]
  {
    if xss != [] {
      ConcatMember(xss[1..], x);
      if x in Concat(xss[1..]) {
        var i :| 0 <= i < |xss[1..]| && x in xss[1..][i];
        assert x in xss[i + 1];
      }
      if exists i :: 0 <= i < |xss| && x in xss[i] {
        var i :| 0 <= i < |xss| && x in xss[i];
        if i > 0 {
          assert x in xss[1..][i - 1];
        }
      }
    }
  }

  /** `s.replace(a, b)` for one-character `a` and `b`. */
  function ReplaceChar(s: string, a: char, b: char): (r: string)
    ensures |r| == |s|
    ensures forall k :: 0 <= k < |s| ==> r[k] == if s[k] == a then b else s[k]
  {
    seq(|s|, k requires 0 <= k < |s| => if s[k] == a then b else s[k])
  }

  lemma {:induction false} TakeWordBeforeSpace(a: string, b: string)
    ensures TakeWord(a + " " + b) == TakeWord(a)
  {
    if a == [] || IsSpace(a[0]) {
    } else {
      assert (a + " " + b)[1..] == a[1..] + " " + b;
      TakeWordBeforeSpace(a[1..], b);
    }
  }

  /** One step of `split()` at a leading space. */
  lemma SplitSkip(s: string)
    requires s != [] && IsSpace(s[0])
    ensures Split(s) == Split(s[1..])
  {
  }

  /** One step of `split()` at the start of a word. */
  lemma SplitWord(s: string)
    requires s != [] && !IsSpace(s[0])
    ensures Split(s) == [TakeWord(s)] + Split(s[|TakeWord(s)|..])
  {
  }

  /** Leading whitespace does not change the words. */
  lemma {:induction false} SplitTrimStart(s: string)
    ensures Split(TrimStart(s)) == Split(s)
    decreases |s|
  {
    if s != [] && IsSpace(s[0]) {
      SplitTrimStart(s[1..]);
    }
  }

  /** A non-space character in front of `x` starts the first word of `x`, or a
      word of its own when `x` does not start with a word. */
  lemma SplitCons(c: char, x: string)
    requires !IsSpace(c)
    ensures Split([c] + x) ==
      if x != [] && !IsSpace(x[0]) then [[c] + Split(x)[0]] + Split(x)[1..] else [[c]] + Split(x)
  {
    var s := [c] + x;
    assert s[1..] == x;
    var w := TakeWord(x);
    assert TakeWord(s) == [c] + w;
    assert s[|[c] + w|..] == x[|w|..];
    if x != [] && !IsSpace(x[0]) {
      SplitWord(x);
    } else {
      assert w == [];
    }
  }

  /** Splitting `a + " " + b` splits each side on its own. */
  lemma {:induction false} SplitAroundSpace(a: string, b: string)
    ensures Split(a + " " + b) == Split(a) + Split(b)
    decreases |a|
  {
    var s := a + " " + b;
    if a == [] {
      assert s[0] == ' ' && s[1..] == b;
      SplitSkip(s);
    } else if IsSpace(a[0]) {
      assert s[0] == a[0] && s[1..] == a[1..] + " " + b;
      SplitAroundSpace(a[1..], b);
      SplitSkip(s);
      SplitSkip(a);
    } else {
      var w := TakeWord(a);
      TakeWordBeforeSpace(a, b);
      assert s[0] == a[0] && s[|w|..] == a[|w|..] + " " + b;
      SplitAroundSpace(a[|w|..], b);
      SplitWord(s);
      SplitWord(a);
    }
  }

  /** The words of a space-joined text are the words of its parts. */
  lemma {:induction false} SplitJoin(parts: seq<string>)
    ensures Split(Join(" ", parts)) == Concat(seq(|parts|, i requires 0 <= i < |parts| => Split(parts[i])))
  {
    var f := seq(|parts|, i requires 0 <= i < |parts| => Split(parts[i]));
    if |parts| == 0 {
    } else if |parts| == 1 {
      assert Concat(f[1..]) == [];
    } else {
      var rest := parts[1..];
      SplitJoin(rest);
      SplitAroundSpace(parts[0], Join(" ", rest));
      assert f[1..] == seq(|rest|, i requires 0 <= i < |rest| => Split(rest[i]));
    }
  }

  // ---------------------------------------------------------------------------
  // Substrings and slices

  predicate StartsWith(s: string, prefix: string)
  {
    |prefix| <= |s| && s[..|prefix|] == prefix
  }

  /** `needle in s` for strings. */
  predicate Contains(s: string, needle: string)
    decreases |s|
  {
    StartsWith(s, needle) || (s != [] && Contains(s[1..], needle))
  }

  /** `s[:n]`: a negative `n` counts from the end. */
  function SliceTo<T>(s: seq<T>, n: int): (r: seq<T>)
    ensures |r| == if n >= 0 then (if n <= |s| then n else |s|) else (if |s| + n >= 0 then |s| + n else 0)
    ensures r == s[..|r|]
  {
    if n >= 0 then (if n <= |s| then s[..n] else s)
    else (if |s| + n >= 0 then s[..|s| + n] else [])
  }

  // ---------------------------------------------------------------------------
  // Numbers

  /** `int(x)` for a real: truncation toward zero. */
  function Trunc(x: real): int
  {
    if x >= 0.0 then x.Floor else -((-x).Floor)
  }

  /** Integer division truncating toward zero, as `int(a / b)` does for b > 0. */
  function TruncDiv(a: int, b: int): int
    requires b > 0
  {
    if a >= 0 then a / b else -((-a) / b)
  }

  function IndexOf(s: string, c: char): (i: nat)
    ensures i <= |s|
    ensures i < |s| ==> s[i] == c
    ensures forall k :: 0 <= k < i ==> s[k] != c
  {
    if s == [] then 0 else if s[0] == c then 0 else 1 + IndexOf(s[1..], c)
  }

  predicate AllDigits(s: string)
  {
    forall k :: 0 <= k < |s| ==> '0' <= s[k] <= '9'
  }

  function DigitsValue(s: string): nat
    requires AllDigits(s)
  {
    if s == [] then 0 else 10 * DigitsValue(s[..|s| - 1]) + (s[|s| - 1] as int - '0' as int)
  }

  function Pow10(n: nat): (r: nat)
    ensures r >= 1
  {
    if n == 0 then 1 else 10 * Pow10(n - 1)
  }

  /** An unsigned decimal: digits, at most one '.', at least one digit. */
  function ParseUnsigned(u: string): Option<real>
  {
    var d := IndexOf(u, '.');
    var whole := u[..d];
    var frac := if d < |u| then u[d + 1..] else "";
    if AllDigits(whole) && AllDigits(frac) && |whole| + |frac| > 0 then
      Some(DigitsValue(whole) as real + DigitsValue(frac) as real / Pow10(|frac|) as real)
    else None
  }

  /** `float(s)` for a string in plain decimal notation, surrounded by optional whitespace. */
  function ParseFloat(s: string): Option<real>
  {
    var t := Strip(s);
    if t != [] && (t[0] == '+' || t[0] == '-') then
      match ParseUnsigned(t[1..])
      case Some(x) => Some(if t[0] == '-' then -x else x)
      case None => None
    else ParseUnsigned(t)
  }
}
