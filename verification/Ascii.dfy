/** The part of Go's `strings` package the operations rely on, over ASCII text. */
module Ascii {

  function Lower(c: char): char {
    if 'A' <= c <= 'Z' then c - 'A' + 'a' else c
  }

  function Upper(c: char): char {
    if 'a' <= c <= 'z' then c - 'a' + 'A' else c
  }

  function ToLower(s: string): (r: string)
    ensures |r| == |s|
    ensures forall i :: 0 <= i < |s| ==> r[i] == Lower(s[i])
  {
    seq(|s|, i requires 0 <= i < |s| => Lower(s[i]))
  }

  function ToUpper(s: string): (r: string)
    ensures |r| == |s|
    ensures forall i :: 0 <= i < |s| ==> r[i] == Upper(s[i])
  {
    seq(|s|, i requires 0 <= i < |s| => Upper(s[i]))
  }

  predicate EqualFold(a: string, b: string) {
    ToLower(a) == ToLower(b)
  }

  /** The letters in code points: a capital is 32 below its small letter, and nothing else
      changes. */
  lemma LetterCase(c: char)
    ensures Lower(c) as int == if 65 <= c as int <= 90 then c as int + 32 else c as int
    ensures Upper(c) as int == if 97 <= c as int <= 122 then c as int - 32 else c as int
  {
  }

  predicate SameLetter(a: char, b: char) {
    || a == b
    || (65 <= a as int <= 90 && b as int == a as int + 32)
    || (65 <= b as int <= 90 && a as int == b as int + 32)
  }

  /** strings.EqualFold: as long, and the same letters up to case place by place. */
  lemma EqualFoldExact(a: string, b: string)
    ensures EqualFold(a, b) <==> |a| == |b| && forall i :: 0 <= i < |a| ==> SameLetter(a[i], b[i])
  {
    if EqualFold(a, b) {
      assert |ToLower(a)| == |ToLower(b)|;
      forall i | 0 <= i < |a| ensures SameLetter(a[i], b[i]) {
        assert ToLower(a)[i] == ToLower(b)[i];
      }
    }
  }

  predicate IsSpace(c: char) {
    c == ' ' || c == '\t' || c == '\n' || c == '\r' || c == 11 as char || c == 12 as char
  }

  function TrimLeft(s: string): string {
    if s != "" && IsSpace(s[0]) then TrimLeft(s[1..]) else s
  }

  function TrimRight(s: string): string {
    if s != "" && IsSpace(s[|s| - 1]) then TrimRight(s[..|s| - 1]) else s
  }

  function TrimSpace(s: string): string {
    TrimRight(TrimLeft(s))
  }

  /** Space, tab, line feed, vertical tab, form feed, carriage return. */
  lemma SpacesExact(c: char)
    ensures IsSpace(c) <==> c as int in {32, 9, 10, 11, 12, 13}
  {
  }

  predicate AllSpaces(s: string) {
    forall c :: c in s ==> IsSpace(c)
  }

  lemma {:induction false} TrimLeftExact(s: string) returns (left: string)
    ensures s == left + TrimLeft(s) && AllSpaces(left)
    ensures TrimLeft(s) != "" ==> !IsSpace(TrimLeft(s)[0])
  {
    if s != "" && IsSpace(s[0]) {
      var rest := TrimLeftExact(s[1..]);
      left := [s[0]] + rest;
      assert s == [s[0]] + s[1..];
    } else {
      left := "";
      assert s == "" + TrimLeft(s);
    }
  }

  lemma {:induction false} TrimRightExact(s: string) returns (right: string)
    ensures s == TrimRight(s) + right && AllSpaces(right)
    ensures TrimRight(s) != "" ==> !IsSpace(TrimRight(s)[|TrimRight(s)| - 1])
  {
    if s != "" && IsSpace(s[|s| - 1]) {
      var rest := TrimRightExact(s[..|s| - 1]);
      right := rest + [s[|s| - 1]];
      assert s == s[..|s| - 1] + [s[|s| - 1]];
    } else {
      right := "";
      assert s == TrimRight(s) + "";
    }
  }

  /** strings.TrimSpace takes blanks off both ends and stops at the first other character. */
  lemma TrimSpaceExact(s: string) returns (left: string, right: string)
    ensures s == left + TrimSpace(s) + right && AllSpaces(left) && AllSpaces(right)
    ensures TrimSpace(s) != "" ==> !IsSpace(TrimSpace(s)[0]) && !IsSpace(TrimSpace(s)[|TrimSpace(s)| - 1])
  {
    left := TrimLeftExact(s);
    right := TrimRightExact(TrimLeft(s));
    assert TrimSpace(s) != "" ==> TrimSpace(s)[0] == TrimLeft(s)[0];
    assert left + (TrimSpace(s) + right) == left + TrimSpace(s) + right;
  }

  predicate HasPrefix(s: string, p: string) {
    |p| <= |s| && s[..|p|] == p
  }

  predicate HasSuffix(s: string, p: string) {
    |p| <= |s| && s[|s| - |p|..] == p
  }

  function TrimSuffix(s: string, p: string): string {
    if HasSuffix(s, p) then s[..|s| - |p|] else s
  }

  predicate Contains(s: string, sub: string) {
    HasPrefix(s, sub) || (s != "" && Contains(s[1..], sub))
  }

  lemma {:induction false} ContainsPrefix(s: string, sub: string)
    ensures Contains(s, sub) <==> exists i :: 0 <= i <= |s| && HasPrefix(s[i..], sub)
  {
    assert s[0..] == s;
    if s != "" {
      ContainsPrefix(s[1..], sub);
      assert forall i :: 0 <= i < |s| ==> s[i + 1..] == s[1..][i..];
      if i :| 1 <= i <= |s| && HasPrefix(s[i..], sub) {
        assert HasPrefix(s[1..][i - 1..], sub);
      }
      if i :| 0 <= i <= |s[1..]| && HasPrefix(s[1..][i..], sub) {
        assert HasPrefix(s[i + 1..], sub);
      }
    }
  }

  predicate OccursAt(s: string, sub: string, i: nat) {
    i + |sub| <= |s| && s[i..i + |sub|] == sub
  }

  /** strings.Contains finds exactly the texts that have `sub` somewhere inside. */
  lemma {:induction false} ContainsExact(s: string, sub: string)
    ensures Contains(s, sub) <==> exists i: nat :: OccursAt(s, sub, i)
  {
    ContainsPrefix(s, sub);
    if i :| 0 <= i <= |s| && HasPrefix(s[i..], sub) {
      assert s[i..][..|sub|] == s[i..i + |sub|];
      assert OccursAt(s, sub, i);
    }
    if i: nat :| OccursAt(s, sub, i) {
      assert s[i..][..|sub|] == s[i..i + |sub|];
      assert HasPrefix(s[i..], sub);
    }
  }

  /** strings.Join. */
  function Join(parts: seq<string>, sep: char): string {
    if parts == [] then ""
    else if |parts| == 1 then parts[0]
    else parts[0] + ([sep] + Join(parts[1..], sep))
  }

  lemma {:induction false} SplitWord(word: string, sep: char)
    requires sep !in word
    ensures Split(word, sep) == [word]
  {
    if word == "" {
    } else {
      SplitWord(word[1..], sep);
      assert [word[0]] + word[1..] == word;
    }
  }

  lemma {:induction false} SplitAtSeparator(word: string, sep: char, rest: string)
    requires sep !in word
    ensures Split(word + ([sep] + rest), sep) == [word] + Split(rest, sep)
  {
    var s := word + ([sep] + rest);
    if word == "" {
      assert s[1..] == rest;
    } else {
      assert s[1..] == word[1..] + ([sep] + rest);
      SplitAtSeparator(word[1..], sep, rest);
      assert [word[0]] + word[1..] == word;
      assert ([word[1..]] + Split(rest, sep))[1..] == Split(rest, sep);
    }
  }

  /** Joining parts that do not contain the separator, and splitting again. */
  lemma {:induction false} SplitOfJoin(parts: seq<string>, sep: char)
    requires parts != [] && forall p :: p in parts ==> sep !in p
    ensures Split(Join(parts, sep), sep) == parts
  {
    assert parts[0] in parts;
    if |parts| == 1 {
      SplitWord(parts[0], sep);
    } else {
      SplitAtSeparator(parts[0], sep, Join(parts[1..], sep));
      SplitOfJoin(parts[1..], sep);
    }
  }

  /** strings.Split on a one-character separator. */
  function Split(s: string, sep: char): (parts: seq<string>)
    ensures |parts| >= 1
    ensures forall p :: p in parts ==> sep !in p
  {
    if s == "" then [""]
    else
      var rest := Split(s[1..], sep);
      if s[0] == sep then [""] + rest
      else [[s[0]] + rest[0]] + rest[1..]
  }

  /** strings.Compare(a, b) < 0. */
  predicate Before(a: string, b: string) {
    if b == "" then false
    else if a == "" then true
    else if a[0] != b[0] then a[0] < b[0]
    else Before(a[1..], b[1..])
  }

  /** Up to place `k` the texts agree; there the first one ends, or has the smaller character. */
  predicate SmallerAt(a: string, b: string, k: nat) {
    && k <= |a| && k < |b| && a[..k] == b[..k]
    && (k == |a| || a[k] < b[k])
  }

  /** The order by name is the dictionary order by character. */
  lemma {:induction false} BeforeExact(a: string, b: string)
    ensures Before(a, b) <==> exists k: nat :: SmallerAt(a, b, k)
  {
    if a == "" || b == "" || a[0] != b[0] {
      if Before(a, b) {
        assert SmallerAt(a, b, 0);
      }
      if k: nat :| SmallerAt(a, b, k) && k > 0 {
        assert a[..k][0] == b[..k][0];
      }
    } else {
      BeforeExact(a[1..], b[1..]);
      if k: nat :| SmallerAt(a[1..], b[1..], k) {
        assert a[..k + 1] == [a[0]] + a[1..][..k] && b[..k + 1] == [b[0]] + b[1..][..k];
        assert SmallerAt(a, b, k + 1);
      }
      if k: nat :| SmallerAt(a, b, k) {
        assert k > 0;
        assert a[1..][..k - 1] == a[..k][1..] && b[1..][..k - 1] == b[..k][1..];
        assert SmallerAt(a[1..], b[1..], k - 1);
      }
    }
  }

  lemma {:induction false} BeforeTotal(a: string, b: string)
    ensures Before(a, b) || a == b || Before(b, a)
    ensures !(Before(a, b) && Before(b, a))
    ensures Before(a, b) ==> a != b
  {
    if a != "" && b != "" && a[0] == b[0] {
      BeforeTotal(a[1..], b[1..]);
      assert a == [a[0]] + a[1..] && b == [b[0]] + b[1..];
    }
  }

  lemma {:induction false} BeforeTransitive(a: string, b: string, c: string)
    requires Before(a, b) && Before(b, c)
    ensures Before(a, c)
  {
    if a != "" && a[0] == b[0] && b[0] == c[0] {
      BeforeTransitive(a[1..], b[1..], c[1..]);
    }
  }

  /** strings.Fields: the maximal runs of non-space characters. */
  function Fields(s: string): (fs: seq<string>)
    ensures forall f :: f in fs ==> Word(f)
    decreases |s|
  {
    if s == "" then []
    else if IsSpace(s[0]) then Fields(s[1..])
    else
      var n := WordLength(s);
      [s[..n]] + Fields(s[n..])
  }

  predicate Word(s: string) {
    s != "" && forall c :: c in s ==> !IsSpace(c)
  }

  function WordLength(s: string): (n: nat)
    ensures n <= |s|
    ensures s != "" && !IsSpace(s[0]) ==> n > 0
    ensures forall c :: c in s[..n] ==> !IsSpace(c)
    ensures n < |s| ==> IsSpace(s[n])
  {
    if s == "" || IsSpace(s[0]) then 0
    else
      assert s[..1 + WordLength(s[1..])] == [s[0]] + s[1..][..WordLength(s[1..])];
      1 + WordLength(s[1..])
  }

  lemma {:induction false} WordIsWhole(w: string, rest: string)
    requires Word(w)
    requires rest == "" || IsSpace(rest[0])
    ensures WordLength(w + rest) == |w|
    decreases |w|
  {
    var s := w + rest;
    assert s[1..] == w[1..] + rest;
    assert w[0] in w;
    if |w| > 1 {
      assert forall c :: c in w[1..] ==> c in w;
      WordIsWhole(w[1..], rest);
    } else {
      assert s[1..] == rest;
    }
  }

  /** strings.Fields, case by case: blanks in front do not matter, and a word ends at the
      first blank behind it. */
  lemma FieldsExact(word: string, blank: char, rest: string)
    requires Word(word) && IsSpace(blank)
    ensures Fields("") == []
    ensures Fields([blank] + rest) == Fields(rest)
    ensures Fields(word) == [word]
    ensures Fields(word + ([blank] + rest)) == [word] + Fields(rest)
  {
    assert ([blank] + rest)[1..] == rest;
    var s := word + ([blank] + rest);
    WordIsWhole(word, [blank] + rest);
    assert word[0] in word;
    assert s[..|word|] == word && s[|word|..] == [blank] + rest;
    WordIsWhole(word, "");
    assert word + "" == word && word[..|word|] == word && word[|word|..] == "";
  }

  /** Joining two words with one space and splitting gives the two words back. */
  lemma FieldsOfPair(a: string, b: string)
    requires Word(a) && Word(b)
    ensures Fields(a + " " + b) == [a, b]
  {
    var s := a + " " + b;
    assert s == a + (" " + b);
    WordIsWhole(a, " " + b);
    assert a[0] in a && b[0] in b;
    assert s[..|a|] == a && s[|a|..] == " " + b;
    assert (" " + b)[1..] == b;
    assert b + "" == b;
    WordIsWhole(b, "");
    assert b[..|b|] == b && b[|b|..] == "";
    assert Fields(b) == [b];
    assert Fields(" " + b) == Fields(b);
  }

  /** camelCase (catalog.go): drop each hyphen and upper-case the letter after it. */
  function CamelFrom(s: string, upper: bool): (r: string)
    ensures '-' !in r
    ensures '-' !in s && !upper ==> r == s
    ensures |r| <= |s|
    ensures '-' in s ==> |r| < |s|
  {
    if s == "" then ""
    else if s[0] == '-' then CamelFrom(s[1..], true)
    else [if upper then Upper(s[0]) else s[0]] + CamelFrom(s[1..], false)
  }

  function CamelCase(name: string): string {
    CamelFrom(name, false)
  }

  function Capitalized(s: string): string {
    if s == "" then "" else [Upper(s[0])] + s[1..]
  }

  function CapitalizedAll(parts: seq<string>): string {
    if parts == [] then "" else Capitalized(parts[0]) + CapitalizedAll(parts[1..])
  }

  /** The conversion read as a whole: split at hyphens, keep the first segment,
      capitalize every later one, and glue them together. */
  lemma CamelCaseJoinsSegments(name: string)
    ensures CamelCase(name) == Split(name, '-')[0] + CapitalizedAll(Split(name, '-')[1..])
  {
    CamelFromSegments(name);
  }

  lemma Regroup(a: string, b: string, c: string)
    ensures a + (b + c) == (a + b) + c
  {
  }

  /** One more leading character: what it does to both sides. */
  lemma SegmentsGrow(c: char, rest: seq<string>)
    requires |rest| >= 1
    ensures var head := [c] + rest[0];
            var parts := [head] + rest[1..];
            && [c] + (rest[0] + CapitalizedAll(rest[1..])) == parts[0] + CapitalizedAll(parts[1..])
            && [Upper(c)] + (rest[0] + CapitalizedAll(rest[1..])) == CapitalizedAll(parts)
  {
    var head, tail := [c] + rest[0], CapitalizedAll(rest[1..]);
    CapitalizedAllCons(head, rest[1..]);
    Regroup([c], rest[0], tail);
    Regroup([Upper(c)], rest[0], tail);
    assert head[1..] == rest[0];
  }

  lemma {:induction false} CamelFromSegments(s: string)
    ensures CamelFrom(s, false) == Split(s, '-')[0] + CapitalizedAll(Split(s, '-')[1..])
    ensures CamelFrom(s, true) == CapitalizedAll(Split(s, '-'))
  {
    if s == "" {
      assert Split(s, '-')[1..] == [];
      assert CapitalizedAll([""]) == "";
    } else {
      var rest := Split(s[1..], '-');
      CamelFromSegments(s[1..]);
      if s[0] == '-' {
        CapitalizedAllCons("", rest);
      } else {
        SegmentsGrow(s[0], rest);
        CapitalizedAllCons(rest[0], rest[1..]);
      }
    }
  }

  lemma CapitalizedAllCons(first: string, rest: seq<string>)
    ensures CapitalizedAll([first] + rest) == Capitalized(first) + CapitalizedAll(rest)
    ensures ([first] + rest)[1..] == rest
  {
    assert ([first] + rest)[1..] == rest;
  }

  /** A name is its own alias exactly when it has no hyphen, and converting an
      alias again changes nothing. */
  lemma CamelCaseFixpoint(name: string)
    ensures CamelCase(name) == name <==> '-' !in name
    ensures CamelCase(CamelCase(name)) == CamelCase(name)
  {
  }

  /** The builder loop of camelCase. */
  method CamelCaseLoop(name: string) returns (b: string)
    ensures b == Split(name, '-')[0] + CapitalizedAll(Split(name, '-')[1..])
  {
    b := "";
    var upper := false;
    var i := 0;
    while i < |name|
      invariant 0 <= i <= |name|
      invariant b + CamelFrom(name[i..], upper) == CamelCase(name)
    {
      var c := name[i];
      assert name[i..][1..] == name[i + 1..];
      Regroup(b, [if upper then Upper(c) else c], CamelFrom(name[i + 1..], false));
      if c == '-' {
        upper := true;
      } else {
        if upper {
          c := Upper(c);
          upper := false;
        }
        b := b + [c];
      }
      i := i + 1;
    }
    CamelCaseJoinsSegments(name);
  }
}
