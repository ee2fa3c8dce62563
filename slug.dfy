/** The slug function `toKebabCase` of myapp/main.ts, which lowercases its
    argument, replaces each whitespace run by '-' and then deletes every
    character outside [a-z0-9-]: three string functions applied in the same
    order, and the properties of their composition. */
module Slug {

  /** The class `\s` of JavaScript regular expressions: the ECMAScript
      WhiteSpace characters (tab, vertical tab, form feed, space, no-break
      space, the other Zs space separators, the byte order mark) and the
      LineTerminator characters (line feed, carriage return, U+2028, U+2029). */
  predicate IsSpace(c: char) {
    var n := c as int;
    (0x09 <= n <= 0x0D) || n == 0x20 || n == 0xA0 || n == 0x1680
    || (0x2000 <= n <= 0x200A) || n == 0x2028 || n == 0x2029
    || n == 0x202F || n == 0x205F || n == 0x3000 || n == 0xFEFF
  }

  /** The characters `[a-z0-9-]` that survive the last step. */
  predicate IsSlugChar(c: char) {
    ('a' <= c <= 'z') || ('0' <= c <= '9') || c == '-'
  }

  predicate IsSlug(s: string) {
    forall i :: 0 <= i < |s| ==> IsSlugChar(s[i])
  }

  predicate NoSpace(s: string) {
    forall i :: 0 <= i < |s| ==> !IsSpace(s[i])
  }

  predicate AllSpace(s: string) {
    forall i :: 0 <= i < |s| ==> IsSpace(s[i])
  }

  predicate StartsWithSpace(s: string) {
    |s| > 0 && IsSpace(s[0])
  }

  predicate EndsWithSpace(s: string) {
    |s| > 0 && IsSpace(s[|s| - 1])
  }

  // ---------------------------------------------------------------------
  // Step 1: toLowerCase (ASCII letters only)
  // ---------------------------------------------------------------------

  /** Lowercases one character: 'A'..'Z' become 'a'..'z' and every other
      character is left as it is. */
  function LowerChar(c: char): (d: char)
    ensures 'A' <= c <= 'Z' ==> 'a' <= d <= 'z' && d as int - 'a' as int == c as int - 'A' as int
    ensures d != c ==> 'A' <= c <= 'Z'
    ensures IsSpace(d) <==> IsSpace(c)
    ensures !('A' <= d <= 'Z')
    ensures IsSlugChar(c) ==> d == c
  {
    if 'A' <= c <= 'Z' then (c as int + 32) as char else c
  }

  function Lower(s: string): (r: string)
    ensures |r| == |s|
  {
    if s == [] then [] else [LowerChar(s[0])] + Lower(s[1..])
  }

  /** Lowercasing works character by character. */
  lemma {:induction false} LowerAt(s: string, i: nat)
    requires i < |s|
    ensures Lower(s)[i] == LowerChar(s[i])
  {
    if i > 0 {
      LowerAt(s[1..], i - 1);
    }
  }

  // ---------------------------------------------------------------------
  // Step 2: replace(/\s+/g, '-')
  // ---------------------------------------------------------------------

  /** What is left of `s` once its leading whitespace run is removed. */
  function DropSpaces(s: string): (r: string)
    ensures |r| <= |s|
  {
    if s != [] && IsSpace(s[0]) then DropSpaces(s[1..]) else s
  }

  /** DropSpaces removes exactly the longest all-whitespace prefix. */
  lemma {:induction false} DropSpacesSpec(s: string)
    ensures DropSpaces(s) == s[|s| - |DropSpaces(s)|..]
    ensures DropSpaces(s) == [] || !IsSpace(DropSpaces(s)[0])
    ensures forall i :: 0 <= i < |s| - |DropSpaces(s)| ==> IsSpace(s[i])
    decreases |s|
  {
    if s != [] && IsSpace(s[0]) {
      DropSpacesSpec(s[1..]);
      assert s[1..][|s| - 1 - |DropSpaces(s)|..] == s[|s| - |DropSpaces(s)|..];
    }
  }

  /** Replaces every maximal run of whitespace, scanned left to right, by a
      single '-'. */
  function CollapseSpaces(s: string): (r: string)
    ensures |r| <= |s|
    decreases |s|
  {
    if s == [] then []
    else if IsSpace(s[0]) then "-" + CollapseSpaces(DropSpaces(s[1..]))
    else [s[0]] + CollapseSpaces(s[1..])
  }

  /** No whitespace is left after the replacement. */
  lemma {:induction false} CollapseHasNoSpace(s: string)
    ensures NoSpace(CollapseSpaces(s))
    decreases |s|
  {
    if s == [] {
    } else if IsSpace(s[0]) {
      CollapseHasNoSpace(DropSpaces(s[1..]));
    } else {
      CollapseHasNoSpace(s[1..]);
    }
  }

  // ---------------------------------------------------------------------
  // Step 3: replace(/[^a-z0-9-]/g, '')
  // ---------------------------------------------------------------------

  function KeepSlugChars(s: string): (r: string)
    ensures |r| <= |s|
  {
    if s == [] then []
    else if IsSlugChar(s[0]) then [s[0]] + KeepSlugChars(s[1..])
    else KeepSlugChars(s[1..])
  }

  /** The filter leaves only [a-z0-9-], keeps every such character of its
      input, invents none, and leaves a slug alone. */
  lemma {:induction false} KeepSlugCharsSpec(s: string)
    ensures IsSlug(KeepSlugChars(s))
    ensures forall c :: c in KeepSlugChars(s) <==> c in s && IsSlugChar(c)
    ensures IsSlug(s) ==> KeepSlugChars(s) == s
    decreases |s|
  {
    if s != [] {
      KeepSlugCharsSpec(s[1..]);
    }
  }

  /** On one character the filter keeps it exactly when it is in
      [a-z0-9-]; with KeepAppend this fixes the filter on every string. */
  lemma KeepSlugCharsOne(c: char)
    ensures KeepSlugChars([c]) == if IsSlugChar(c) then [c] else []
  {
    assert [c][1..] == [];
  }

  /** toKebabCase (myapp/main.ts:24-29). */
  function ToKebabCase(s: string): (r: string)
    ensures IsSlug(r)
    ensures NoSpace(r)
    ensures |r| <= |s|
  {
    var collapsed := CollapseSpaces(Lower(s));
    KeepSlugCharsSpec(collapsed);
    KeepSlugChars(collapsed)
  }

  // ---------------------------------------------------------------------
  // Each step distributes over concatenation
  // ---------------------------------------------------------------------

  lemma {:induction false} LowerAppend(a: string, b: string)
    ensures Lower(a + b) == Lower(a) + Lower(b)
    decreases |a|
  {
    if a == [] {
      assert a + b == b;
    } else {
      assert (a + b)[1..] == a[1..] + b;
      LowerAppend(a[1..], b);
    }
  }

  lemma {:induction false} KeepAppend(a: string, b: string)
    ensures KeepSlugChars(a + b) == KeepSlugChars(a) + KeepSlugChars(b)
    decreases |a|
  {
    if a == [] {
      assert a + b == b;
    } else {
      assert (a + b)[1..] == a[1..] + b;
      KeepAppend(a[1..], b);
    }
  }

  lemma {:induction false} DropSpacesAppend(a: string, b: string)
    ensures DropSpaces(a + b) == if AllSpace(a) then DropSpaces(b) else DropSpaces(a) + b
    decreases |a|
  {
    if a == [] {
      assert a + b == b;
    } else if IsSpace(a[0]) {
      assert (a + b)[1..] == a[1..] + b;
      DropSpacesAppend(a[1..], b);
      assert AllSpace(a) == AllSpace(a[1..]);
    } else {
      assert !AllSpace(a);
    }
  }

  lemma {:induction false} DropSpacesOfSpaces(s: string)
    requires AllSpace(s)
    ensures DropSpaces(s) == []
    decreases |s|
  {
    if s != [] {
      DropSpacesOfSpaces(s[1..]);
    }
  }

  lemma {:induction false} DropSpacesKeepsLast(s: string)
    requires !AllSpace(s)
    ensures DropSpaces(s) != []
    ensures DropSpaces(s)[|DropSpaces(s)| - 1] == s[|s| - 1]
    decreases |s|
  {
    if IsSpace(s[0]) {
      assert !AllSpace(s[1..]);
      DropSpacesKeepsLast(s[1..]);
    }
  }

  /** A whitespace run never straddles the seam unless `a` ends and `b`
      starts with whitespace, so collapsing can be done piecewise. */
  lemma {:induction false} CollapseAppend(a: string, b: string)
    requires !(EndsWithSpace(a) && StartsWithSpace(b))
    ensures CollapseSpaces(a + b) == CollapseSpaces(a) + CollapseSpaces(b)
    decreases |a|
  {
    if a == [] {
      assert a + b == b;
    } else {
      var t := a[1..];
      assert (a + b)[0] == a[0] && (a + b)[1..] == t + b;
      if !IsSpace(a[0]) {
        CollapseAppend(t, b);
        assert CollapseSpaces(a + b) == [a[0]] + CollapseSpaces(t + b);
      } else {
        DropSpacesAppend(t, b);
        assert CollapseSpaces(a + b) == "-" + CollapseSpaces(DropSpaces(t + b));
        if AllSpace(t) {
          DropSpacesOfSpaces(t);
          assert EndsWithSpace(a);
          assert DropSpaces(b) == b;
          assert CollapseSpaces(a) == "-";
        } else {
          var d := DropSpaces(t);
          DropSpacesKeepsLast(t);
          CollapseAppend(d, b);
          assert CollapseSpaces(a) == "-" + CollapseSpaces(d);
        }
      }
    }
  }

  lemma {:induction false} CollapseNoSpace(s: string)
    requires NoSpace(s)
    ensures CollapseSpaces(s) == s
    decreases |s|
  {
    if s != [] {
      CollapseNoSpace(s[1..]);
    }
  }

  // ---------------------------------------------------------------------
  // Properties of toKebabCase
  // ---------------------------------------------------------------------

  /** toKebabCase can be computed piecewise at any seam that does not split
      a whitespace run. */
  lemma KebabAppend(a: string, b: string)
    requires !(EndsWithSpace(a) && StartsWithSpace(b))
    ensures ToKebabCase(a + b) == ToKebabCase(a) + ToKebabCase(b)
  {
    LowerAppend(a, b);
    var la, lb := Lower(a), Lower(b);
    if a != [] {
      LowerAt(a, |a| - 1);
    }
    if b != [] {
      LowerAt(b, 0);
    }
    CollapseAppend(la, lb);
    KeepAppend(CollapseSpaces(la), CollapseSpaces(lb));
  }

  /** A non-empty whitespace run alone becomes a single '-'. */
  lemma KebabOfSpaces(w: string)
    requires w != [] && AllSpace(w)
    ensures ToKebabCase(w) == "-"
  {
    var lw := Lower(w);
    forall i | 0 <= i < |lw| ensures IsSpace(lw[i]) {
      LowerAt(w, i);
    }
    DropSpacesOfSpaces(lw[1..]);
    assert CollapseSpaces(lw) == "-";
    assert KeepSlugChars("-") == "-";
  }

  /** Each maximal whitespace run becomes exactly one '-', which survives the
      final filter. */
  lemma KebabSpaceRun(a: string, w: string, b: string)
    requires !EndsWithSpace(a) && !StartsWithSpace(b)
    requires w != [] && AllSpace(w)
    ensures ToKebabCase(a + w + b) == ToKebabCase(a) + "-" + ToKebabCase(b)
  {
    var ka, kb := ToKebabCase(a), ToKebabCase(b);
    calc {
      ToKebabCase(a + w + b);
      { assert a + w + b == a + (w + b); }
      ToKebabCase(a + (w + b));
      { KebabAppend(a, w + b); }
      ka + ToKebabCase(w + b);
      { KebabAppend(w, b); KebabOfSpaces(w); }
      ka + ("-" + kb);
      { assert ka + ("-" + kb) == ka + "-" + kb; }
      ka + "-" + kb;
    }
  }

  /** Applying toKebabCase to a slug changes nothing. */
  lemma KebabIdempotent(s: string)
    ensures ToKebabCase(ToKebabCase(s)) == ToKebabCase(s)
  {
    var k := ToKebabCase(s);
    forall i | 0 <= i < |k| ensures Lower(k)[i] == k[i] {
      LowerAt(k, i);
    }
    assert Lower(k) == k;
    CollapseNoSpace(k);
    KeepSlugCharsSpec(k);
  }

  /** Without whitespace, toKebabCase is lowercasing followed by the filter. */
  lemma KebabWord(s: string)
    requires NoSpace(s)
    ensures ToKebabCase(s) == KeepSlugChars(Lower(s))
  {
    forall i | 0 <= i < |s| ensures !IsSpace(Lower(s)[i]) {
      LowerAt(s, i);
    }
    CollapseNoSpace(Lower(s));
  }

  // ---------------------------------------------------------------------
  // Worked examples (inputs are written as concatenations of their words
  // and whitespace runs)
  // ---------------------------------------------------------------------

  lemma KebabSea()
    ensures ToKebabCase("Sea") == "sea"
  {
    assert Lower("Sea") == "sea";
    KebabWord("Sea");
  }

  lemma KebabExampleWords2()
    ensures ToKebabCase("Man") == "man"
    ensures ToKebabCase("o'") == "o"
    ensures ToKebabCase("War") == "war"
  {
    assert Lower("Man") == "man";
    KebabWord("Man");
    KebabWord("o'");
    assert Lower("War") == "war";
    KebabWord("War");
  }

  /** The apostrophe is dropped after the spaces have become hyphens. */
  lemma KebabManOWar()
    ensures ToKebabCase("Man" + " " + "o'" + " " + "War") == "man" + "-" + "o" + "-" + "war"
  {
    KebabExampleWords2();
    KebabSpaceRun("o'", " ", "War");
    KebabSpaceRun("Man", " ", "o'" + " " + "War");
    assert "Man" + " " + "o'" + " " + "War" == "Man" + " " + ("o'" + " " + "War");
  }

  /** A hyphen already in the name is kept beside the ones spaces become. */
  lemma KebabHyphensKept()
    ensures ToKebabCase("a" + " " + "-" + " " + "b") == "a" + "-" + "-" + "-" + "b"
  {
    KebabWord("a");
    KebabWord("-");
    KebabWord("b");
    KebabSpaceRun("-", " ", "b");
    KebabSpaceRun("a", " ", "-" + " " + "b");
    assert "a" + " " + "-" + " " + "b" == "a" + " " + ("-" + " " + "b");
  }

  /** Punctuation is deleted outright. */
  lemma KebabBang()
    ensures ToKebabCase("!") == []
  {
    KebabWord("!");
    assert Lower("!") == "!";
  }

  lemma KebabBisCuit()
    ensures ToKebabCase("Bis") == "bis"
    ensures ToKebabCase("cuit") == "cuit"
  {
    KebabWord("Bis");
    assert Lower("Bis") == "bis";
    KebabWord("cuit");
    assert Lower("cuit") == "cuit";
  }

  /** The punctuation is dropped and the letters are kept. */
  lemma KebabBiscuit()
    ensures ToKebabCase("Bis" + "cuit" + "!") == "bis" + "cuit"
  {
    KebabBang();
    KebabBisCuit();
    KebabAppend("Bis", "cuit");
    KebabAppend("Bis" + "cuit", "!");
  }

  /** "Sea  Biscuit!" gives "sea-biscuit"; the input is written as its
      pieces. */
  lemma KebabSeaBiscuit()
    ensures ToKebabCase("Sea" + "  " + ("Bis" + "cuit" + "!")) == "sea" + "-" + ("bis" + "cuit")
  {
    KebabSea();
    KebabBiscuit();
    KebabSpaceRun("Sea", "  ", "Bis" + "cuit" + "!");
  }
}
