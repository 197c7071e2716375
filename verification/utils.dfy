/**
  Text and collection helpers of the application: the canonical comparison
  form of text (`normalize_text`), input clean-up (`sanitize_string`), a small
  CSV line splitter, list chunking, and helpers over dictionaries.

  A Python dict is modelled as an association list in insertion order with
  pairwise distinct keys; an argument that is not a dict (or not a list) is
  `None` of `Option`.
*/
module Utils {
  import opened Builtins

  // ===========================================================================
  // normalize_text

  /** The fixed French diacritic table: each key is replaced by its base letter. */
  const Diacritics: map<char, char> := map[
    'à' := 'a', 'â' := 'a', 'ä' := 'a',
    'é' := 'e', 'è' := 'e', 'ê' := 'e', 'ë' := 'e',
    'î' := 'i', 'ï' := 'i',
    'ô' := 'o', 'ö' := 'o',
    'ù' := 'u', 'û' := 'u', 'ü' := 'u',
    'ç' := 'c',
    'ñ' := 'n']

  /** Every replacement is a plain lower-case ASCII letter, so no replacement is itself a key. */
  lemma DiacriticsReplacements()
    ensures forall c :: c in Diacritics ==> 'a' <= Diacritics[c] <= 'z' && Diacritics[c] !in Diacritics
    ensures forall c :: c in Diacritics ==> !IsSpace(c) && !IsUpper(c)
  {
  }

  /** The table leaves plain lower-case ASCII letters alone. */
  lemma PlainLetterKept(c: char)
    requires 'a' <= c <= 'z'
    ensures c !in Diacritics && Unaccent(c) == c
  {
  }

  /** One character after all substitutions of the table. */
  function Unaccent(c: char): char
  {
    if c in Diacritics then Diacritics[c] else c
  }

  /** A replaced character is never a key of the table, is whitespace exactly
      when the original is, and is not upper-case unless the original was. */
  lemma UnaccentFacts(c: char)
    ensures Unaccent(c) !in Diacritics
    ensures IsSpace(Unaccent(c)) <==> IsSpace(c)
    ensures !IsUpper(c) ==> !IsUpper(Unaccent(c))
  {
    DiacriticsReplacements();
  }

  /** The canonical form of a string: lower-cased, stripped, diacritics replaced.
      Each substitution replaces one character by one, so the length is that of
      the lower-cased, stripped text. */
  function Normalize(s: string): (r: string)
    ensures |r| == |Strip(Lower(s))|
    ensures forall k :: 0 <= k < |r| ==> r[k] == Unaccent(Strip(Lower(s))[k])
  {
    UnaccentAll(Strip(Lower(s)))
  }

  /** Every character of `t` after the substitutions of the table. */
  function UnaccentAll(t: string): (r: string)
    ensures |r| == |t|
    ensures forall k :: 0 <= k < |t| ==> r[k] == Unaccent(t[k])
  {
    seq(|t|, k requires 0 <= k < |t| => Unaccent(t[k]))
  }

  /** `normalize_text` accepts any value; a non-string normalises to "". The
      result is in normal form. */
  function NormalizeValue(v: Value): (r: string)
    ensures !v.Str? ==> r == ""
    ensures Normalize(r) == r
  {
    if v.Str? then
      NormalizeIdempotent(v.s);
      Normalize(v.s)
    else
      NormalizeFixed("");
      ""
  }

  /** normalize_text: lower-case and strip, then apply the table one entry at a
      time with `str.replace`. The table is visited in an arbitrary order: the
      result does not depend on it. */
  method NormalizeText(text: Value) returns (r: string)
    ensures !text.Str? ==> r == ""
    ensures text.Str? ==> r == Normalize(text.s)
  {
    if !text.Str? {
      return "";
    }
    var base := Strip(Lower(text.s));
    r := base;
    var pending := Diacritics.Keys;
    while pending != {}
      invariant pending <= Diacritics.Keys
      invariant PartlyUnaccented(r, base, pending)
      decreases |pending|
    {
      var c :| c in pending;
      ReplaceStep(r, base, pending, c);
      r := ReplaceChar(r, c, Diacritics[c]);
      pending := pending - {c};
    }
  }

  /** `r` is `base` with the keys outside `pending` already replaced. */
  ghost predicate PartlyUnaccented(r: string, base: string, pending: set<char>)
  {
    |r| == |base| && forall k :: 0 <= k < |r| ==> r[k] == if base[k] in pending then base[k] else Unaccent(base[k])
  }

  /** Replacing one more key of the table keeps the loop invariant of `normalize_text`. */
  lemma ReplaceStep(r: string, base: string, pending: set<char>, c: char)
    requires PartlyUnaccented(r, base, pending) && c in pending && pending <= Diacritics.Keys
    ensures PartlyUnaccented(ReplaceChar(r, c, Diacritics[c]), base, pending - {c})
  {
    assert Unaccent(c) == Diacritics[c];
  }

  /** Lower-casing then stripping leaves no upper-case letter. */
  lemma StripLowerNoUpper(s: string)
    ensures forall k :: 0 <= k < |Strip(Lower(s))| ==> !IsUpper(Strip(Lower(s))[k])
  {
    var l := Lower(s);
    var t := Strip(l);
    forall k | 0 <= k < |t|
      ensures !IsUpper(t[k])
    {
      var j :| 0 <= j < |l| && l[j] == t[k];
    }
  }

  /** The canonical form has no upper-case letter, no key of the table and no
      whitespace at either end. */
  lemma NormalizeShape(s: string)
    ensures forall k :: 0 <= k < |Normalize(s)| ==> !IsUpper(Normalize(s)[k]) && Normalize(s)[k] !in Diacritics
    ensures var n := Normalize(s); n == [] || (!IsSpace(n[0]) && !IsSpace(n[|n| - 1]))
  {
    var t, n := Strip(Lower(s)), Normalize(s);
    StripLowerNoUpper(s);
    forall k | 0 <= k < |n|
      ensures !IsUpper(n[k]) && n[k] !in Diacritics
    {
      UnaccentFacts(t[k]);
    }
    if t != [] {
      UnaccentFacts(t[0]);
      UnaccentFacts(t[|t| - 1]);
    }
  }

  /** The canonical form is a fixed point of normalisation. */
  lemma NormalizeIdempotent(s: string)
    ensures Normalize(Normalize(s)) == Normalize(s)
  {
    NormalizeShape(s);
    NormalizeFixed(Normalize(s));
  }

  /** Text that is already lower-case, stripped and free of the table's keys is its own canonical form. */
  lemma NormalizeFixed(s: string)
    requires forall k :: 0 <= k < |s| ==> !IsUpper(s[k]) && s[k] !in Diacritics
    requires s == [] || (!IsSpace(s[0]) && !IsSpace(s[|s| - 1]))
    ensures Normalize(s) == s
  {
    assert Lower(s) == s;
    StripUnchanged(s);
  }

  /** A query made only of whitespace normalises to the empty string. */
  lemma NormalizeBlank(s: string)
    requires forall k :: 0 <= k < |s| ==> IsSpace(s[k])
    ensures Normalize(s) == ""
  {
    var l := Lower(s);
    assert forall k :: 0 <= k < |l| ==> IsSpace(l[k]);
  }

  // ===========================================================================
  // sanitize_string

  /** The only whitespace is the plain space, and never two in a row. */
  predicate SingleSpaced(s: string)
  {
    && (forall k :: 0 <= k < |s| ==> IsSpace(s[k]) ==> s[k] == ' ')
    && (forall k :: 0 <= k < |s| - 1 ==> !(IsSpace(s[k]) && IsSpace(s[k + 1])))
  }

  lemma SingleSpacedPrefix(s: string, n: nat)
    requires SingleSpaced(s) && n <= |s|
    ensures SingleSpaced(s[..n])
  {
  }

  /** A character in front of a single-spaced text keeps it single-spaced when
      it is a plain space followed by no whitespace, or no whitespace at all. */
  lemma SingleSpacedCons(c: char, x: string)
    requires SingleSpaced(x)
    requires IsSpace(c) ==> c == ' ' && (x == [] || !IsSpace(x[0]))
    ensures SingleSpaced([c] + x)
  {
    var e := [c] + x;
    forall k | 1 <= k < |e|
      ensures e[k] == x[k - 1]
    {
    }
  }

  /** `re.sub(r'\s+', ' ', s)`: every maximal run of whitespace becomes one space. */
  function Collapse(s: string): (r: string)
    ensures |r| <= |s|
    ensures r == [] <==> s == []
    ensures r != [] ==> (IsSpace(r[0]) <==> IsSpace(s[0]))
    ensures r != [] ==> (IsSpace(r[|r| - 1]) <==> IsSpace(s[|s| - 1]))
    ensures SingleSpaced(r)
    decreases |s|
  {
    if s == [] then []
    else if IsSpace(s[0]) then
      var rest := TrimStart(s[1..]);
      assert rest != [] ==> rest[|rest| - 1] == s[|s| - 1];
      var c := Collapse(rest);
      SingleSpacedCons(' ', c);
      [' '] + c
    else
      var c := Collapse(s[1..]);
      SingleSpacedCons(s[0], c);
      [s[0]] + c
  }

  /** The characters of a string that are not whitespace, in order. */
  function NonSpace(s: string): string
  {
    if s == [] then [] else (if IsSpace(s[0]) then [] else [s[0]]) + NonSpace(s[1..])
  }

  lemma {:induction false} NonSpaceTrimStart(s: string)
    ensures NonSpace(TrimStart(s)) == NonSpace(s)
  {
    if s != [] && IsSpace(s[0]) {
      NonSpaceTrimStart(s[1..]);
    }
  }

  /** Collapsing whitespace never touches the other characters. */
  lemma {:induction false} CollapseKeepsText(s: string)
    ensures NonSpace(Collapse(s)) == NonSpace(s)
    decreases |s|
  {
    if s == [] {
    } else if IsSpace(s[0]) {
      var rest := TrimStart(s[1..]);
      CollapseKeepsText(rest);
      NonSpaceTrimStart(s[1..]);
      assert ([' '] + Collapse(rest))[1..] == Collapse(rest);
    } else {
      CollapseKeepsText(s[1..]);
      assert ([s[0]] + Collapse(s[1..]))[1..] == Collapse(s[1..]);
    }
  }

  /** Collapsing whitespace keeps the words apart and unchanged: `split()` of
      the result is `split()` of the input. */
  lemma {:induction false} CollapseSplit(s: string)
    ensures Split(Collapse(s)) == Split(s)
    decreases |s|
  {
    if s == [] {
    } else if IsSpace(s[0]) {
      var rest := TrimStart(s[1..]);
      CollapseSplit(rest);
      CollapseSplitSpace(s, rest);
    } else {
      CollapseSplit(s[1..]);
      CollapseSplitWord(s);
    }
  }

  lemma CollapseSplitSpace(s: string, rest: string)
    requires s != [] && IsSpace(s[0]) && rest == TrimStart(s[1..])
    requires Split(Collapse(rest)) == Split(rest)
    ensures Split(Collapse(s)) == Split(s)
  {
    SplitTrimStart(s[1..]);
    SplitSkip(s);
    var c := [' '] + Collapse(rest);
    assert Collapse(s) == c;
    assert c[1..] == Collapse(rest);
    SplitSkip(c);
  }

  lemma CollapseSplitWord(s: string)
    requires s != [] && !IsSpace(s[0])
    requires Split(Collapse(s[1..])) == Split(s[1..])
    ensures Split(Collapse(s)) == Split(s)
  {
    CollapseWordStep(s);
    SameWordsCons(s[0], Collapse(s[1..]), s[1..]);
  }

  /** At a non-space character, collapsing keeps it and goes on with the rest. */
  lemma CollapseWordStep(s: string)
    requires s != [] && !IsSpace(s[0])
    ensures Collapse(s) == [s[0]] + Collapse(s[1..])
    ensures s == [s[0]] + s[1..]
    ensures (Collapse(s[1..]) != [] && !IsSpace(Collapse(s[1..])[0])) == (s[1..] != [] && !IsSpace(s[1]))
  {
  }

  /** Two texts with the same words, both starting with a word or neither,
      keep the same words behind a common non-space character. */
  lemma SameWordsCons(h: char, x: string, y: string)
    requires !IsSpace(h) && Split(x) == Split(y)
    requires (x != [] && !IsSpace(x[0])) == (y != [] && !IsSpace(y[0]))
    ensures Split([h] + x) == Split([h] + y)
  {
    SplitCons(h, x);
    SplitCons(h, y);
  }

  /** sanitize_string: strip, collapse whitespace runs, and cut to `max_length`
      when that is given and non-zero (a negative length cuts from the end,
      as a Python slice does). A non-string gives "". */
  function Sanitize(value: Value, maxLength: Option<int>): (r: string)
    ensures !value.Str? ==> r == ""
    ensures value.Str? ==> |r| <= |Collapse(Strip(value.s))| && r == Collapse(Strip(value.s))[..|r|]
    ensures SingleSpaced(r)
    ensures r == [] || !IsSpace(r[0])
    ensures maxLength.Some? && maxLength.value > 0 ==> |r| <= maxLength.value
    ensures value.Str? && maxLength.Some? && maxLength.value > 0 ==>
      |r| == if |Collapse(Strip(value.s))| <= maxLength.value then |Collapse(Strip(value.s))| else maxLength.value
    ensures value.Str? && (maxLength.None? || maxLength.value == 0) ==> r == Collapse(Strip(value.s))
    ensures value.Str? && maxLength.Some? && maxLength.value < 0 ==>
      |r| == if |Collapse(Strip(value.s))| + maxLength.value >= 0
             then |Collapse(Strip(value.s))| + maxLength.value else 0
  {
    if !value.Str? then ""
    else
      var c := Collapse(Strip(value.s));
      var r := Truncate(c, maxLength);
      SingleSpacedPrefix(c, |r|);
      r
  }

  /** `if max_length and len(c) > max_length: c = c[:max_length]` */
  function Truncate(c: string, maxLength: Option<int>): (r: string)
    ensures |r| <= |c| && r == c[..|r|]
    ensures maxLength.None? || maxLength.value == 0 ==> r == c
    ensures maxLength.Some? && maxLength.value > 0 ==>
      |r| == if |c| <= maxLength.value then |c| else maxLength.value
    ensures maxLength.Some? && maxLength.value < 0 ==>
      |r| == if |c| + maxLength.value >= 0 then |c| + maxLength.value else 0
  {
    if maxLength.Some? && maxLength.value != 0 && |c| > maxLength.value then SliceTo(c, maxLength.value)
    else c
  }


  // ===========================================================================
  // parse_csv_line

  /** The raw (unstripped) fields of a CSV line read from `s` on, `inQuotes`
      telling whether a quote is open: quotes toggle the flag and are dropped,
      a comma outside quotes ends a field, anything else belongs to the field. */
  function FieldsFrom(s: string, inQuotes: bool): (fs: seq<string>)
    ensures |fs| >= 1
    decreases |s|
  {
    if s == [] then [""]
    else if s[0] == '"' then FieldsFrom(s[1..], !inQuotes)
    else if s[0] == ',' && !inQuotes then [""] + FieldsFrom(s[1..], inQuotes)
    else
      var rest := FieldsFrom(s[1..], inQuotes);
      [[s[0]] + rest[0]] + rest[1..]
  }

  /** The number of commas of `s` that stand outside quotes. */
  function UnquotedCommas(s: string, inQuotes: bool): nat
    decreases |s|
  {
    if s == [] then 0
    else if s[0] == '"' then UnquotedCommas(s[1..], !inQuotes)
    else (if s[0] == ',' && !inQuotes then 1 else 0) + UnquotedCommas(s[1..], inQuotes)
  }

  /** One field per unquoted comma, plus one. */
  lemma {:induction false} FieldCount(s: string, inQuotes: bool)
    ensures |FieldsFrom(s, inQuotes)| == 1 + UnquotedCommas(s, inQuotes)
    decreases |s|
  {
    if s == [] {
    } else if s[0] == '"' {
      FieldCount(s[1..], !inQuotes);
    } else {
      FieldCount(s[1..], inQuotes);
    }
  }

  /** No field keeps a quote character. */
  lemma {:induction false} FieldsQuoteFree(s: string, inQuotes: bool)
    ensures forall f :: f in FieldsFrom(s, inQuotes) ==> '"' !in f
    decreases |s|
  {
    if s == [] {
    } else if s[0] == '"' {
      FieldsQuoteFree(s[1..], !inQuotes);
    } else {
      FieldsQuoteFree(s[1..], inQuotes);
      var rest := FieldsFrom(s[1..], inQuotes);
      assert rest[0] in rest;
      assert forall f :: f in rest[1..] ==> f in rest;
    }
  }

  /** Every field stripped. */
  function StripAll(fs: seq<string>): seq<string>
  {
    if fs == [] then [] else StripAll(fs[..|fs| - 1]) + [Strip(fs[|fs| - 1])]
  }

  lemma {:induction false} StripAllAt(fs: seq<string>)
    ensures |StripAll(fs)| == |fs|
    ensures forall i :: 0 <= i < |fs| ==> StripAll(fs)[i] == Strip(fs[i])
  {
    if fs != [] {
      var init := fs[..|fs| - 1];
      StripAllAt(init);
      assert StripAll(fs) == StripAll(init) + [Strip(fs[|fs| - 1])];
      forall i | 0 <= i < |fs|
        ensures StripAll(fs)[i] == Strip(fs[i])
      {
        if i < |fs| - 1 {
          assert fs[i] == init[i];
        }
      }
    }
  }

  lemma StripAllAppend(fs: seq<string>, f: string)
    ensures StripAll(fs + [f]) == StripAll(fs) + [Strip(f)]
  {
    assert (fs + [f])[..|fs|] == fs;
  }

  /** The fields still to be produced once the scan has reached position `i`
      with `current` as the open field and `inQuotes` as the quote flag. */
  function Pending(s: string, i: nat, inQuotes: bool, current: string): seq<string>
    requires i <= |s|
  {
    var fs := FieldsFrom(s[i..], inQuotes);
    [current + fs[0]] + fs[1..]
  }

  /** One step of the scan leaves the pending fields unchanged. */
  lemma PendingStep(s: string, i: nat, inQuotes: bool, current: string)
    requires i < |s|
    ensures s[i] == '"' ==> Pending(s, i, inQuotes, current) == Pending(s, i + 1, !inQuotes, current)
    ensures s[i] != '"' && s[i] == ',' && !inQuotes ==>
      Pending(s, i, inQuotes, current) == [current] + Pending(s, i + 1, inQuotes, "")
    ensures s[i] != '"' && !(s[i] == ',' && !inQuotes) ==>
      Pending(s, i, inQuotes, current) == Pending(s, i + 1, inQuotes, current + [s[i]])
  {
    assert s[i..][0] == s[i] && s[i..][1..] == s[i + 1..];
    var next := FieldsFrom(s[i + 1..], inQuotes);
    if s[i] == '"' {
    } else if s[i] == ',' && !inQuotes {
      var fs := FieldsFrom(s[i..], inQuotes);
      assert fs == [""] + next;
      assert fs[0] == "" && fs[1..] == next;
      assert current + fs[0] == current;
      assert "" + next[0] == next[0];
      assert [next[0]] + next[1..] == next;
      assert Pending(s, i, inQuotes, current) == [current] + next;
    } else {
      assert current + ([s[i]] + next[0]) == (current + [s[i]]) + next[0];
    }
  }

  lemma PendingStart(s: string)
    ensures Pending(s, 0, false, "") == FieldsFrom(s, false)
  {
    var fs := FieldsFrom(s, false);
    assert s[0..] == s;
    assert "" + fs[0] == fs[0];
    assert [fs[0]] + fs[1..] == fs;
  }

  lemma PendingEnd(s: string, inQuotes: bool, current: string)
    ensures Pending(s, |s|, inQuotes, current) == [current]
  {
    assert s[|s|..] == [];
    assert current + "" == current;
  }

  /** Stripped fields taken from quote-free fields are quote-free and stay put under strip. */
  lemma StrippedFieldsClean(fs: seq<string>)
    requires forall f :: f in fs ==> '"' !in f
    ensures forall v :: v in StripAll(fs) ==> '"' !in v && Strip(v) == v
  {
    forall v | v in StripAll(fs)
      ensures '"' !in v && Strip(v) == v
    {
      StripAllAt(fs);
      var i :| 0 <= i < |fs| && StripAll(fs)[i] == v;
      assert fs[i] in fs;
      StripUnchanged(v);
    }
  }

  /** parse_csv_line: a character loop with an in-quotes flag. */
  method ParseCsvLine(line: Value) returns (values: seq<string>)
    ensures !line.Str? ==> values == []
    ensures line.Str? ==> values == StripAll(FieldsFrom(line.s, false))
    ensures line.Str? ==> |values| == 1 + UnquotedCommas(line.s, false)
    ensures forall v :: v in values ==> '"' !in v && Strip(v) == v
  {
    if !line.Str? {
      return [];
    }
    var s := line.s;
    values := [];
    var current := "";
    var inQuotes := false;
    ghost var done: seq<string> := [];
    ghost var all := FieldsFrom(s, false);
    PendingStart(s);
    for i := 0 to |s|
      invariant values == StripAll(done)
      invariant all == done + Pending(s, i, inQuotes, current)
    {
      var c := s[i];
      PendingStep(s, i, inQuotes, current);
      if c == '"' {
        inQuotes := !inQuotes;
      } else if c == ',' && !inQuotes {
        StripAllAppend(done, current);
        values := values + [Strip(current)];
        done := done + [current];
        current := "";
      } else {
        current := current + [c];
      }
    }
    PendingEnd(s, inQuotes, current);
    StripAllAppend(done, current);
    values := values + [Strip(current)];
    done := done + [current];
    StripAllAt(all);
    FieldCount(s, false);
    FieldsQuoteFree(s, false);
    StrippedFieldsClean(all);
  }

  // ===========================================================================
  // chunk_list

  /** chunk_list: consecutive slices of `chunk_size` items, the last one possibly shorter.
      A non-list or a non-positive size gives no chunks. */
  method ChunkList<T>(items: Option<seq<T>>, chunkSize: int) returns (chunks: seq<seq<T>>)
    ensures items.None? || chunkSize <= 0 ==> chunks == []
    ensures items.Some? && chunkSize > 0 ==>
      && Concat(chunks) == items.value
      && (forall j :: 0 <= j < |chunks| ==> 1 <= |chunks[j]| <= chunkSize)
      && (forall j :: 0 <= j < |chunks| - 1 ==> |chunks[j]| == chunkSize)
  {
    if items.None? || chunkSize <= 0 {
      return [];
    }
    var xs := items.value;
    chunks := [];
    var i := 0;
    while i < |xs|
      invariant 0 <= i
      invariant i <= |xs| ==> Concat(chunks) == xs[..i] && forall j :: 0 <= j < |chunks| ==> |chunks[j]| == chunkSize
      invariant i > |xs| ==> Concat(chunks) == xs
      invariant forall j :: 0 <= j < |chunks| ==> 1 <= |chunks[j]| <= chunkSize
      invariant forall j :: 0 <= j < |chunks| - 1 ==> |chunks[j]| == chunkSize
    {
      var end := if i + chunkSize <= |xs| then i + chunkSize else |xs|;
      ConcatAppend(chunks, xs[i..end]);
      assert xs[..i] + xs[i..end] == xs[..end];
      chunks := chunks + [xs[i..end]];
      i := i + chunkSize;
    }
    assert i <= |xs| ==> xs[..i] == xs;
  }

  // ===========================================================================
  // Dictionaries

  predicate DistinctKeys(d: seq<(string, Value)>)
  {
    forall i, j :: 0 <= i < j < |d| ==> d[i].0 != d[j].0
  }

  /** A dict from strings: entries in insertion order, no key twice. */
  type Dict = d: seq<(string, Value)> | DistinctKeys(d) witness []

  function KeysOf(d: seq<(string, Value)>): set<string>
  {
    set p | p in d :: p.0
  }

  lemma KeysOfPrefix(d: seq<(string, Value)>, n: nat)
    requires n < |d|
    ensures KeysOf(d[..n + 1]) == KeysOf(d[..n]) + {d[n].0}
  {
    assert d[..n + 1] == d[..n] + [d[n]];
  }

  /** `d.get(key)`, with `None` for a missing key. */
  function Get(d: Dict, key: string): (r: Option<Value>)
    ensures r.Some? <==> key in KeysOf(d)
    ensures r.Some? ==> (key, r.value) in d
  {
    if d == [] then None
    else if d[0].0 == key then Some(d[0].1)
    else
      assert forall p :: p in d[1..] ==> p in d;
      assert forall p :: p in d && p.0 != d[0].0 ==> p in d[1..];
      Get(d[1..], key)
  }

  lemma KeysOfCons(p: (string, Value), d: Dict)
    requires p.0 !in KeysOf(d)
    ensures DistinctKeys([p] + d)
    ensures KeysOf([p] + d) == {p.0} + KeysOf(d)
  {
    var e := [p] + d;
    forall i, j | 0 <= i < j < |e|
      ensures e[i].0 != e[j].0
    {
      if i == 0 {
        assert e[j] == d[j - 1] && d[j - 1] in d;
      } else {
        assert e[i] == d[i - 1] && e[j] == d[j - 1];
      }
    }
  }

  lemma KeysOfTail(d: Dict)
    requires d != []
    ensures KeysOf(d) == {d[0].0} + KeysOf(d[1..])
    ensures d[0].0 !in KeysOf(d[1..])
  {
    assert d == [d[0]] + d[1..];
    forall p | p in d[1..]
      ensures p.0 != d[0].0
    {
      var j :| 0 <= j < |d[1..]| && d[1..][j] == p;
      assert d[1..][j] == d[j + 1];
    }
  }

  /** `d[key] = value`: an existing key keeps its place, a new key goes last. */
  function Put(d: Dict, key: string, value: Value): (r: Dict)
    ensures KeysOf(r) == KeysOf(d) + {key}
    decreases |d|
  {
    if d == [] then [(key, value)]
    else
      KeysOfTail(d);
      var tail: Dict := d[1..];
      if d[0].0 == key then
        KeysOfCons((key, value), tail);
        [(key, value)] + tail
      else
        var rest := Put(tail, key, value);
        KeysOfCons(d[0], rest);
        [d[0]] + rest
  }

  /** Storing a key keeps every existing key at its position and adds a new key at the end. */
  lemma {:induction false} PutShape(d: Dict, key: string, value: Value)
    ensures |Put(d, key, value)| == if key in KeysOf(d) then |d| else |d| + 1
    ensures forall i :: 0 <= i < |d| ==> Put(d, key, value)[i].0 == d[i].0
    decreases |d|
  {
    if d != [] {
      KeysOfTail(d);
      var tail: Dict := d[1..];
      if d[0].0 != key {
        PutShape(tail, key, value);
        var rest := Put(tail, key, value);
        KeysOfCons(d[0], rest);
        assert Put(d, key, value) == [d[0]] + rest;
        forall i | 0 < i < |d|
          ensures Put(d, key, value)[i].0 == d[i].0
        {
          assert rest[i - 1].0 == tail[i - 1].0;
        }
      }
    }
  }

  /** A lookup in a dict with a first entry `p` reads `p` first, then the rest. */
  lemma GetCons(p: (string, Value), d: Dict, k: string)
    requires DistinctKeys([p] + d)
    ensures Get([p] + d, k) == if p.0 == k then Some(p.1) else Get(d, k)
  {
    assert ([p] + d)[1..] == d;
  }

  /** After `d[key] = value`, `key` reads `value` and every other key reads as before. */
  lemma {:induction false} GetPut(d: Dict, key: string, value: Value)
    ensures Get(Put(d, key, value), key) == Some(value)
    ensures forall k :: k != key ==> Get(Put(d, key, value), k) == Get(d, k)
    decreases |d|
  {
    if d != [] {
      if d[0].0 == key {
        forall k {
          GetPutFirst(d, key, value, k);
        }
      } else {
        var tail: Dict := d[1..];
        GetPut(tail, key, value);
        forall k {
          GetPutLater(d, key, value, k);
        }
      }
    }
  }

  lemma GetPutFirst(d: Dict, key: string, value: Value, k: string)
    requires d != [] && d[0].0 == key
    ensures Get(Put(d, key, value), k) == if k == key then Some(value) else Get(d, k)
  {
    KeysOfTail(d);
    var tail: Dict := d[1..];
    KeysOfCons((key, value), tail);
    assert Put(d, key, value) == [(key, value)] + tail;
    GetCons((key, value), tail, k);
    assert d == [d[0]] + tail;
    GetCons(d[0], tail, k);
  }

  lemma GetPutLater(d: Dict, key: string, value: Value, k: string)
    requires d != [] && d[0].0 != key
    requires var tail: Dict := d[1..];
      Get(Put(tail, key, value), k) == if k == key then Some(value) else Get(tail, k)
    ensures Get(Put(d, key, value), k) == if k == key then Some(value) else Get(d, k)
  {
    KeysOfTail(d);
    var tail: Dict := d[1..];
    var rest := Put(tail, key, value);
    KeysOfCons(d[0], rest);
    assert Put(d, key, value) == [d[0]] + rest;
    GetCons(d[0], rest, k);
  }

  /** The value stored at position `i` is what its key reads. */
  lemma {:induction false} GetAt(d: Dict, i: nat)
    requires i < |d|
    ensures Get(d, d[i].0) == Some(d[i].1)
  {
    if i > 0 {
      assert d[0].0 != d[i].0;
      GetAt(d[1..], i - 1);
    }
  }

  /** safe_get: `data.get(key, default)` for a dict, `default` for anything else. */
  function SafeGet(data: Option<Dict>, key: string, default: Value): (r: Value)
    ensures data.None? ==> r == default
    ensures data.Some? && key !in KeysOf(data.value) ==> r == default
    ensures data.Some? && key in KeysOf(data.value) ==> (key, r) in data.value
  {
    if data.None? then default
    else match Get(data.value, key)
      case Some(v) => v
      case None => default
  }

  /** `merged` is `d1` updated with the first `n` entries of `d2`. */
  ghost predicate MergedUpTo(merged: Dict, d1: Dict, d2: Dict, n: nat)
    requires n <= |d2|
  {
    && KeysOf(merged) == KeysOf(d1) + KeysOf(d2[..n])
    && (forall k :: k in KeysOf(d2[..n]) ==> Get(merged, k) == Get(d2, k))
    && (forall k :: k !in KeysOf(d2[..n]) ==> Get(merged, k) == Get(d1, k))
    && |merged| >= |d1|
    && (forall j :: 0 <= j < |d1| ==> merged[j].0 == d1[j].0)
  }

  lemma MergeStep(merged: Dict, d1: Dict, d2: Dict, n: nat)
    requires n < |d2| && MergedUpTo(merged, d1, d2, n)
    ensures MergedUpTo(Put(merged, d2[n].0, d2[n].1), d1, d2, n + 1)
  {
    var key, value := d2[n].0, d2[n].1;
    var m := Put(merged, key, value);
    KeysOfPrefix(d2, n);
    GetAt(d2, n);
    GetPut(merged, key, value);
    PutShape(merged, key, value);
    MergeReads(merged, m, d1, d2, n);
    assert KeysOf(m) == KeysOf(merged) + {key} == KeysOf(d1) + KeysOf(d2[..n + 1]);
    assert |m| >= |merged| >= |d1|;
    assert forall j :: 0 <= j < |d1| ==> m[j].0 == merged[j].0 == d1[j].0;
    MergedIntro(m, d1, d2, n + 1);
  }

  lemma MergedIntro(merged: Dict, d1: Dict, d2: Dict, n: nat)
    requires n <= |d2|
    requires KeysOf(merged) == KeysOf(d1) + KeysOf(d2[..n])
    requires forall k :: k in KeysOf(d2[..n]) ==> Get(merged, k) == Get(d2, k)
    requires forall k :: k !in KeysOf(d2[..n]) ==> Get(merged, k) == Get(d1, k)
    requires |merged| >= |d1|
    requires forall j :: 0 <= j < |d1| ==> merged[j].0 == d1[j].0
    ensures MergedUpTo(merged, d1, d2, n)
  {
  }

  /** The lookups part of one `update` step. */
  lemma MergeReads(merged: Dict, m: Dict, d1: Dict, d2: Dict, n: nat)
    requires n < |d2| && MergedUpTo(merged, d1, d2, n)
    requires KeysOf(d2[..n + 1]) == KeysOf(d2[..n]) + {d2[n].0}
    requires Get(d2, d2[n].0) == Some(d2[n].1)
    requires Get(m, d2[n].0) == Some(d2[n].1)
    requires forall k :: k != d2[n].0 ==> Get(m, k) == Get(merged, k)
    ensures forall k :: k in KeysOf(d2[..n + 1]) ==> Get(m, k) == Get(d2, k)
    ensures forall k :: k !in KeysOf(d2[..n + 1]) ==> Get(m, k) == Get(d1, k)
  {
  }

  /** merge_dicts: copy `dict1`, then `update` it with `dict2`. A non-dict counts as `{}`. */
  method MergeDicts(dict1: Option<Dict>, dict2: Option<Dict>) returns (merged: Dict)
    ensures var d1 := if dict1.Some? then dict1.value else [];
            var d2 := if dict2.Some? then dict2.value else [];
            && KeysOf(merged) == KeysOf(d1) + KeysOf(d2)
            && (forall k :: k in KeysOf(d2) ==> Get(merged, k) == Get(d2, k))
            && (forall k :: k !in KeysOf(d2) ==> Get(merged, k) == Get(d1, k))
            && |merged| >= |d1|
            && (forall i :: 0 <= i < |d1| ==> merged[i].0 == d1[i].0)
  {
    var d1 := if dict1.Some? then dict1.value else [];
    var d2 := if dict2.Some? then dict2.value else [];
    merged := d1;
    assert d2[..0] == [];
    for i := 0 to |d2|
      invariant MergedUpTo(merged, d1, d2, i)
    {
      MergeStep(merged, d1, d2, i);
      merged := Put(merged, d2[i].0, d2[i].1);
    }
    assert d2[..|d2|] == d2;
  }

  /** Looking a key up in a merge reads `dict2` first, then `dict1`. */
  lemma SafeGetAfterMerge(d1: Dict, d2: Dict, merged: Dict, key: string, default: Value)
    requires KeysOf(merged) == KeysOf(d1) + KeysOf(d2)
    requires forall k :: k in KeysOf(d2) ==> Get(merged, k) == Get(d2, k)
    requires forall k :: k !in KeysOf(d2) ==> Get(merged, k) == Get(d1, k)
    ensures SafeGet(Some(merged), key, default) ==
      if key in KeysOf(d2) then SafeGet(Some(d2), key, default) else SafeGet(Some(d1), key, default)
  {
  }

  /** `{key: data[key] for key in keys if key in data}` */
  function Restrict(data: Dict, keys: seq<string>): (r: Dict)
    ensures KeysOf(r) == (set k | k in keys) * KeysOf(data)
    ensures forall k :: k in KeysOf(r) ==> Get(r, k) == Get(data, k)
  {
    if keys == [] then []
    else
      var init := keys[..|keys| - 1];
      var key := keys[|keys| - 1];
      assert keys == init + [key];
      var r0 := Restrict(data, init);
      match Get(data, key)
      case Some(v) =>
        GetPut(r0, key, v);
        Put(r0, key, v)
      case None => r0
  }

  /** filter_dict: the entries of `data` whose key is listed; `{}` unless both arguments have the right type. */
  function FilterDict(data: Option<Dict>, keys: Option<seq<string>>): (r: Dict)
    ensures data.None? || keys.None? ==> r == []
    ensures data.Some? && keys.Some? ==> KeysOf(r) == (set k | k in keys.value) * KeysOf(data.value)
    ensures data.Some? && keys.Some? ==> forall k :: k in KeysOf(r) ==> Get(r, k) == Get(data.value, k)
  {
    if data.None? || keys.None? then [] else Restrict(data.value, keys.value)
  }

  // ===========================================================================
  // dict_to_query_string

  /** The `key=value` pairs of the entries whose value is not None, in order. */
  function QueryPairs(d: seq<(string, Value)>): seq<string>
  {
    if d == [] then []
    else
      var last := d[|d| - 1];
      QueryPairs(d[..|d| - 1]) + (if last.1 != Null then [last.0 + "=" + ToStr(last.1)] else [])
  }

  /** dict_to_query_string: collect the pairs in a loop, then join them with "&". */
  method DictToQueryString(params: Option<Dict>) returns (query: string)
    ensures params.None? ==> query == ""
    ensures params.Some? ==> query == Join("&", QueryPairs(params.value))
  {
    if params.None? {
      return "";
    }
    var d := params.value;
    var pairs: seq<string> := [];
    for i := 0 to |d|
      invariant pairs == QueryPairs(d[..i])
    {
      assert d[..i + 1][..i] == d[..i];
      if d[i].1 != Null {
        pairs := pairs + [d[i].0 + "=" + ToStr(d[i].1)];
      }
    }
    assert d[..|d|] == d;
    query := Join("&", pairs);
  }

  /** The pieces of `s` between the occurrences of `sep`. */
  function SplitOn(sep: char, s: string): (r: seq<string>)
    ensures |r| >= 1
    decreases |s|
  {
    var i := IndexOf(s, sep);
    if i == |s| then [s] else [s[..i]] + SplitOn(sep, s[i + 1..])
  }

  /** The first `c` in `a + [c] + b` is the one after `a` when `a` holds none. */
  lemma IndexOfAfter(a: string, c: char, b: string)
    requires c !in a
    ensures IndexOf(a + [c] + b, c) == |a|
  {
    var s := a + [c] + b;
    assert s[|a|] == c;
    assert forall k :: 0 <= k < |a| ==> s[k] == a[k] && a[k] in a;
  }

  lemma IndexOfAbsent(s: string, c: char)
    requires c !in s
    ensures IndexOf(s, c) == |s|
  {
    assert forall k :: 0 <= k < |s| ==> s[k] in s;
  }

  lemma {:induction false} SplitOnJoin(sep: char, parts: seq<string>)
    requires |parts| >= 1
    requires forall p :: p in parts ==> sep !in p
    ensures SplitOn(sep, Join([sep], parts)) == parts
  {
    assert parts[0] in parts;
    if |parts| == 1 {
      IndexOfAbsent(parts[0], sep);
    } else {
      var rest := Join([sep], parts[1..]);
      var s := Join([sep], parts);
      assert s == parts[0] + [sep] + rest;
      IndexOfAfter(parts[0], sep, rest);
      assert s[..|parts[0]|] == parts[0];
      assert s[|parts[0]| + 1..] == rest;
      assert forall p :: p in parts[1..] ==> p in parts;
      SplitOnJoin(sep, parts[1..]);
    }
  }

  /** When no key or rendered value holds '&', the query string splits back into its pairs. */
  lemma QueryStringSplits(d: Dict)
    requires QueryPairs(d) != []
    requires forall p :: p in QueryPairs(d) ==> '&' !in p
    ensures SplitOn('&', Join("&", QueryPairs(d))) == QueryPairs(d)
  {
    SplitOnJoin('&', QueryPairs(d));
  }
}
