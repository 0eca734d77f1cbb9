/** Title normalisation and the flexible title match: `normalize_title` and
    `partial_match`. Characters are Dafny `char`s; the regular-expression
    classes `\w` and `\s` and `str.lower()` are given their ASCII meaning. */
module Titles {

  type Title = string

  /** A character of the class `\w`: a letter, a digit or the underscore. */
  predicate IsWordChar(c: char)
  {
    'a' <= c <= 'z' || 'A' <= c <= 'Z' || '0' <= c <= '9' || c == '_'
  }

  /** A character of the class `\s` (and one that `str.strip()` removes):
      space, tab, line feed, vertical tab, form feed, carriage return and the
      four information separators 0x1C-0x1F. */
  predicate IsSpaceChar(c: char)
  {
    c == ' ' || '\t' <= c <= '\r' || '\U{1c}' <= c <= '\U{1f}'
  }

  predicate IsUpper(c: char)
  {
    'A' <= c <= 'Z'
  }

  /** A character that `re.sub(r"[^\w\s]", "", s)` keeps. */
  predicate Kept(c: char)
  {
    IsWordChar(c) || IsSpaceChar(c)
  }

  function LowerChar(c: char): char
  {
    if IsUpper(c) then (c as int + 32) as char else c
  }

  /** `s.lower()`. */
  function LowerCase(s: string): (r: string)
    ensures |r| == |s|
  {
    seq(|s|, i requires 0 <= i < |s| => LowerChar(s[i]))
  }

  /** Lowercasing leaves no uppercase letter, keeps every character's
      class (word character, whitespace or punctuation), and leaves a
      string without uppercase letters alone. */
  lemma LowerCaseSpec(s: string)
    ensures forall i :: 0 <= i < |s| ==> !IsUpper(LowerCase(s)[i])
    ensures forall i :: 0 <= i < |s| ==> (Kept(LowerCase(s)[i]) <==> Kept(s[i]))
    ensures (forall i :: 0 <= i < |s| ==> !IsUpper(s[i])) ==> LowerCase(s) == s
  {
  }

  /** `re.sub(r"[^\w\s]", "", s)`: delete every character that is neither a
      word character nor whitespace. */
  function RemovePunctuation(s: string): string
  {
    if s == [] then []
    else (if Kept(s[0]) then [s[0]] else []) + RemovePunctuation(s[1..])
  }

  /** Punctuation removal keeps only word characters and whitespace, each
      taken from the input, and never lengthens the string. */
  lemma {:induction false} RemovePunctuationKeeps(s: string)
    ensures |RemovePunctuation(s)| <= |s|
    ensures forall c :: c in RemovePunctuation(s) ==> c in s && Kept(c)
  {
    if s != [] {
      RemovePunctuationKeeps(s[1..]);
    }
  }

  /** A string made only of word characters and whitespace has nothing to
      remove. */
  lemma {:induction false} RemovePunctuationClean(s: string)
    requires forall i :: 0 <= i < |s| ==> Kept(s[i])
    ensures RemovePunctuation(s) == s
  {
    if s != [] {
      RemovePunctuationClean(s[1..]);
      assert s == [s[0]] + s[1..];
    }
  }

  predicate AllSpace(s: string)
  {
    forall i :: 0 <= i < |s| ==> IsSpaceChar(s[i])
  }

  /** `s.lstrip()`. */
  function TrimStart(s: string): string
  {
    if s != [] && IsSpaceChar(s[0]) then TrimStart(s[1..]) else s
  }

  /** `s.rstrip()`. */
  function TrimEnd(s: string): string
  {
    if s != [] && IsSpaceChar(s[|s| - 1]) then TrimEnd(s[..|s| - 1]) else s
  }

  /** `s.strip()`. */
  function Strip(s: string): string
  {
    TrimEnd(TrimStart(s))
  }

  /** `lstrip()` removes exactly the leading run of whitespace: the result
      is a suffix of `s`, everything before it is whitespace, and it does not
      start with whitespace. */
  lemma {:induction false} TrimStartSpec(s: string)
    ensures |TrimStart(s)| <= |s| && TrimStart(s) == s[|s| - |TrimStart(s)|..]
    ensures AllSpace(s[..|s| - |TrimStart(s)|])
    ensures TrimStart(s) == [] || !IsSpaceChar(TrimStart(s)[0])
  {
    if s != [] && IsSpaceChar(s[0]) {
      TrimStartSpec(s[1..]);
      var k := |s| - |TrimStart(s)|;
      assert s[..k] == [s[0]] + s[1..][..k - 1];
    }
  }

  /** `rstrip()` removes exactly the trailing run of whitespace: the result
      is a prefix of `s`, everything after it is whitespace, and it does not
      end with whitespace. */
  lemma {:induction false} TrimEndSpec(s: string)
    ensures |TrimEnd(s)| <= |s| && TrimEnd(s) == s[..|TrimEnd(s)|]
    ensures AllSpace(s[|TrimEnd(s)|..])
    ensures TrimEnd(s) == [] || !IsSpaceChar(TrimEnd(s)[|TrimEnd(s)| - 1])
  {
    if s != [] && IsSpaceChar(s[|s| - 1]) {
      var t := s[..|s| - 1];
      TrimEndSpec(t);
      var k := |TrimEnd(s)|;
      assert s[k..] == t[k..] + [s[|s| - 1]];
    }
  }

  /** `strip()` removes whitespace on either side and nothing else: the
      result is a slice `s[p..p + |r|]` with only whitespace before and after
      it, and it neither starts nor ends with whitespace. */
  lemma StripSpec(s: string)
    ensures exists p :: 0 <= p <= |s| - |Strip(s)| && Strip(s) == s[p..p + |Strip(s)|]
                        && AllSpace(s[..p]) && AllSpace(s[p + |Strip(s)|..])
    ensures Strip(s) == [] || (!IsSpaceChar(Strip(s)[0]) && !IsSpaceChar(Strip(s)[|Strip(s)| - 1]))
  {
    var t := TrimStart(s);
    var r := TrimEnd(t);
    TrimStartSpec(s);
    TrimEndSpec(t);
    var p := |s| - |t|;
    assert r == s[p..p + |r|];
    assert s[p + |r|..] == t[|r|..];
  }

  /** Every character `strip()` keeps comes from its input. */
  lemma StripChars(s: string)
    ensures forall c :: c in Strip(s) ==> c in s
  {
    var t := TrimStart(s);
    TrimStartSpec(s);
    TrimEndSpec(t);
    var p := |s| - |t|;
    forall c | c in Strip(s) ensures c in s {
      var i :| 0 <= i < |Strip(s)| && Strip(s)[i] == c;
      assert t[i] == c;
      assert s[p + i] == c;
    }
  }

  /** `normalize_title`: lowercase, drop punctuation, trim the ends. */
  function Normalize(s: string): string
  {
    Strip(RemovePunctuation(LowerCase(s)))
  }

  /** A normalised title holds only lowercase word characters and
      whitespace, and neither starts nor ends with whitespace. */
  lemma NormalizeShape(s: string)
    ensures forall i :: 0 <= i < |Normalize(s)| ==> Kept(Normalize(s)[i]) && !IsUpper(Normalize(s)[i])
    ensures Normalize(s) == [] || (!IsSpaceChar(Normalize(s)[0]) && !IsSpaceChar(Normalize(s)[|Normalize(s)| - 1]))
  {
    var t := RemovePunctuation(LowerCase(s));
    LowerCaseSpec(s);
    RemovePunctuationKeeps(LowerCase(s));
    StripChars(t);
    StripSpec(t);
  }

  /** Lowercasing works character by character. */
  lemma LowerCaseConcat(a: string, b: string)
    ensures LowerCase(a + b) == LowerCase(a) + LowerCase(b)
  {
  }

  /** Punctuation removal works character by character. */
  lemma {:induction false} RemovePunctuationConcat(a: string, b: string)
    ensures RemovePunctuation(a + b) == RemovePunctuation(a) + RemovePunctuation(b)
  {
    if a == [] {
      assert a + b == b;
    } else {
      assert (a + b)[0] == a[0];
      assert (a + b)[1..] == a[1..] + b;
      RemovePunctuationConcat(a[1..], b);
      var h := if Kept(a[0]) then [a[0]] else [];
      assert RemovePunctuation(a + b) == h + (RemovePunctuation(a[1..]) + RemovePunctuation(b));
      assert h + (RemovePunctuation(a[1..]) + RemovePunctuation(b))
          == (h + RemovePunctuation(a[1..])) + RemovePunctuation(b);
    }
  }

  /** `strip()` leaves a string alone that neither starts nor ends with
      whitespace. */
  lemma StripUnpadded(t: string)
    requires t == [] || (!IsSpaceChar(t[0]) && !IsSpaceChar(t[|t| - 1]))
    ensures Strip(t) == t
  {
    assert TrimStart(t) == t;
    assert TrimEnd(t) == t;
  }

  /** `normalize_title` is idempotent: a normalised title is its own
      normal form. */
  lemma NormalizeIdempotent(s: string)
    ensures Normalize(Normalize(s)) == Normalize(s)
  {
    var t := Normalize(s);
    NormalizeShape(s);
    LowerCaseSpec(t);
    RemovePunctuationClean(t);
    StripUnpadded(t);
  }

  /** The example in the documentation of `normalize_title`. */
  lemma NormalizeExample()
    ensures Normalize("Endeavor: Deep Sea") == "endeavor deep sea"
  {
    CleanEndeavorColonDeepSea();
    StripUnpadded("endeavor deep sea");
  }

  /** Python's `needle in hay` on strings: a substring test. */
  function IsSubstring(needle: string, hay: string): bool
    decreases |hay|
  {
    needle <= hay || (hay != [] && IsSubstring(needle, hay[1..]))
  }

  /** `needle` occurs in `hay` starting at offset `i`. */
  predicate OccursAt(needle: string, hay: string, i: int)
  {
    0 <= i <= |hay| - |needle| && hay[i..i + |needle|] == needle
  }

  /** `needle in hay` holds exactly when `needle` occurs in `hay` at some
      offset. */
  lemma {:induction false} SubstringSpec(needle: string, hay: string)
    ensures IsSubstring(needle, hay) <==> exists i :: OccursAt(needle, hay, i)
    decreases |hay|
  {
    OccursAtStart(needle, hay);
    if hay != [] && !(needle <= hay) {
      SubstringSpec(needle, hay[1..]);
      if IsSubstring(needle, hay[1..]) {
        var i :| OccursAt(needle, hay[1..], i);
        OccursInTail(needle, hay, i);
      }
      if exists i :: OccursAt(needle, hay, i) {
        var i :| OccursAt(needle, hay, i);
        OccursInTail(needle, hay, i - 1);
      }
    }
  }

  /** An occurrence at offset 0 is a prefix. */
  lemma OccursAtStart(needle: string, hay: string)
    ensures OccursAt(needle, hay, 0) <==> needle <= hay
  {
  }

  /** An occurrence in `hay[1..]` is an occurrence in `hay` one further on. */
  lemma OccursInTail(needle: string, hay: string, i: int)
    requires hay != [] && 0 <= i
    ensures OccursAt(needle, hay[1..], i) <==> OccursAt(needle, hay, i + 1)
  {
    if 0 <= i <= |hay| - 1 - |needle| {
      assert hay[1..][i..i + |needle|] == hay[i + 1..i + 1 + |needle|];
    }
  }

  /** `partial_match`: either normalised title is a substring of the other. */
  function PartialMatch(a: Title, b: Title): bool
  {
    var na, nb := Normalize(a), Normalize(b);
    IsSubstring(na, nb) || IsSubstring(nb, na)
  }

  /** Two titles match exactly when one normal form occurs inside the other. */
  lemma PartialMatchSpec(a: Title, b: Title)
    ensures PartialMatch(a, b) <==>
            (exists i :: OccursAt(Normalize(a), Normalize(b), i)) ||
            (exists i :: OccursAt(Normalize(b), Normalize(a), i))
  {
    SubstringSpec(Normalize(a), Normalize(b));
    SubstringSpec(Normalize(b), Normalize(a));
  }

  lemma PartialMatchSymmetric(a: Title, b: Title)
    ensures PartialMatch(a, b) == PartialMatch(b, a)
  {
  }

  lemma PartialMatchReflexive(a: Title)
    ensures PartialMatch(a, a)
  {
  }

  /** The match sees the titles only through their normal forms. */
  lemma PartialMatchNormalForms(a: Title, a': Title, b: Title, b': Title)
    requires Normalize(a) == Normalize(a') && Normalize(b) == Normalize(b')
    ensures PartialMatch(a, b) == PartialMatch(a', b')
  {
  }

  /** A title whose normal form is empty (all punctuation, say) matches
      every title, since the empty string is a substring of any string. */
  lemma EmptyNormalFormMatchesAll(a: Title, b: Title)
    requires Normalize(a) == ""
    ensures PartialMatch(a, b) && PartialMatch(b, a)
  {
  }

  /** The examples in the documentation of `partial_match`. */
  lemma PartialMatchExamples()
    ensures PartialMatch("SETI", "SETI Search...")
    ensures PartialMatch("Endeavor Deep Sea", "Endeavor: Deep Sea")
  {
    NormalizeSeti();
    NormalizeSetiSearch();
    assert "seti" <= "seti search";
    NormalizeExample();
    NormalizeEndeavorDeepSea();
  }

  /** Plain substring matching also pairs two different short titles:
      "Arks" matches "Parks". */
  lemma ShortTitleInsideLonger()
    ensures PartialMatch("Arks", "Parks")
  {
    NormalizeArks();
    NormalizeParks();
    assert "parks"[1..] == "arks";
    assert IsSubstring("arks", "parks"[1..]);
  }

  // Evaluation steps for the documented examples.

  lemma CleanEndeavorColonDeepSea()
    ensures RemovePunctuation(LowerCase("Endeavor: Deep Sea")) == "endeavor deep sea"
  {
    var a, b := "Endeavor:", " Deep Sea";
    assert a + b == "Endeavor: Deep Sea";
    assert "endeavor" + " deep sea" == "endeavor deep sea";
    LowerEndeavorColon();
    CleanEndeavorColon();
    LowerDeepSea();
    CleanDeepSea();
    LowerCaseConcat(a, b);
    RemovePunctuationConcat("endeavor:", " deep sea");
  }

  lemma CleanEndeavorDeepSea()
    ensures RemovePunctuation(LowerCase("Endeavor Deep Sea")) == "endeavor deep sea"
  {
    var a, b := "Endeavor", " Deep Sea";
    assert a + b == "Endeavor Deep Sea";
    assert "endeavor" + " deep sea" == "endeavor deep sea";
    LowerEndeavor();
    CleanEndeavor();
    LowerDeepSea();
    CleanDeepSea();
    LowerCaseConcat(a, b);
    RemovePunctuationConcat("endeavor", " deep sea");
  }

  lemma CleanSetiSearch()
    ensures RemovePunctuation(LowerCase("SETI Search...")) == "seti search"
  {
    var a, b := "SETI ", "Search...";
    assert a + b == "SETI Search...";
    assert "seti " + "search" == "seti search";
    LowerSetiSpace();
    CleanSetiSpace();
    LowerSearchDots();
    CleanSearchDots();
    LowerCaseConcat(a, b);
    RemovePunctuationConcat("seti ", "search...");
  }

  lemma NormalizeSeti()
    ensures Normalize("SETI") == "seti"
  {
    assert LowerCase("SETI") == "seti";
    assert RemovePunctuation("seti") == "seti";
    StripUnpadded("seti");
  }

  lemma NormalizeSetiSearch()
    ensures Normalize("SETI Search...") == "seti search"
  {
    CleanSetiSearch();
    StripUnpadded("seti search");
  }

  lemma NormalizeEndeavorDeepSea()
    ensures Normalize("Endeavor Deep Sea") == "endeavor deep sea"
  {
    CleanEndeavorDeepSea();
    StripUnpadded("endeavor deep sea");
  }

  lemma NormalizeArks()
    ensures Normalize("Arks") == "arks"
  {
    assert LowerCase("Arks") == "arks";
    assert RemovePunctuation("arks") == "arks";
    StripUnpadded("arks");
  }

  lemma NormalizeParks()
    ensures Normalize("Parks") == "parks"
  {
    assert LowerCase("Parks") == "parks";
    assert RemovePunctuation("parks") == "parks";
    StripUnpadded("parks");
  }

  lemma LowerEndeavorColon()
    ensures LowerCase("Endeavor:") == "endeavor:"
  {
  }

  lemma CleanEndeavorColon()
    ensures RemovePunctuation("endeavor:") == "endeavor"
  {
    CleanEndeavor();
    RemovePunctuationConcat("endeavor", ":");
    assert "endeavor" + ":" == "endeavor:";
  }

  lemma LowerDeepSea()
    ensures LowerCase(" Deep Sea") == " deep sea"
  {
  }

  lemma CleanDeepSea()
    ensures RemovePunctuation(" deep sea") == " deep sea"
  {
    assert RemovePunctuation(" deep") == " deep";
    assert RemovePunctuation(" sea") == " sea";
    RemovePunctuationConcat(" deep", " sea");
    assert " deep" + " sea" == " deep sea";
  }

  lemma LowerEndeavor()
    ensures LowerCase("Endeavor") == "endeavor"
  {
  }

  lemma CleanEndeavor()
    ensures RemovePunctuation("endeavor") == "endeavor"
  {
    assert RemovePunctuation("ende") == "ende";
    assert RemovePunctuation("avor") == "avor";
    RemovePunctuationConcat("ende", "avor");
    assert "ende" + "avor" == "endeavor";
  }

  lemma LowerSetiSpace()
    ensures LowerCase("SETI ") == "seti "
  {
  }

  lemma CleanSetiSpace()
    ensures RemovePunctuation("seti ") == "seti "
  {
  }

  lemma LowerSearchDots()
    ensures LowerCase("Search...") == "search..."
  {
  }

  lemma CleanSearchDots()
    ensures RemovePunctuation("search...") == "search"
  {
    RemovePunctuationClean("search");
    RemovePunctuationConcat("search", "...");
    assert "search" + "..." == "search...";
  }
}
