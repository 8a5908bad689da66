/** `generateSlug` (nextjs/src/lib/blog-api.ts): title -> URL slug, and the `slug-N`
    names that the uniqueness probe tries. */
module Slug {
  import opened Text

  /** `.substring(0, 100)` */
  const MaxLength: nat := 100

  predicate IsAsciiUpper(c: char) { 'A' <= c <= 'Z' }

  /** `\w` without the `u` flag: ASCII letters, ASCII digits and `_`. */
  predicate IsWordChar(c: char) {
    'a' <= c <= 'z' || IsAsciiUpper(c) || '0' <= c <= '9' || c == '_'
  }

  /** The characters `[^\w\s-]` does not delete. */
  predicate IsKept(c: char) { IsWordChar(c) || IsSpace(c) || c == '-' }

  /** The characters a generated slug is made of. */
  predicate IsSlugChar(c: char) {
    'a' <= c <= 'z' || '0' <= c <= '9' || c == '_' || c == '-'
  }

  predicate IsSlug(s: string) {
    |s| <= MaxLength && forall c | c in s :: IsSlugChar(c)
  }

  /** The lower-case form of an ASCII capital. */
  function AsciiLower(c: char): char
    requires IsAsciiUpper(c)
  {
    (c as int + 32) as char
  }

  /** `toLowerCase()` of one character, exact on every character whose lower-case form can
      get through the `[^\w\s-]` filter: ASCII capitals; KELVIN SIGN, which lowers to `k`;
      CAPITAL I WITH DOT ABOVE, which lowers to `i` and a combining dot. Every other
      character is kept as it is: white space has no case, and any other character and its
      lower-case form are both outside `[\w\s-]`, so the filter deletes either. */
  function LowerChar(c: char): (r: string)
    ensures IsAsciiUpper(c) ==> r == [AsciiLower(c)] && 'a' <= r[0] <= 'z'
    ensures c == '\U{212A}' ==> r == "k"
    ensures c == '\U{0130}' ==> r == "i\U{0307}"
    ensures IsUncased(c) ==> r == [c]
    ensures forall c | c in r :: !IsAsciiUpper(c)
  {
    if IsAsciiUpper(c) then [AsciiLower(c)]
    else if c == '\U{212A}' then "k"
    else if c == '\U{0130}' then "i\U{0307}"
    else [c]
  }

  /** `.toLowerCase()`: each character replaced by its lower-case form. */
  function Lower(s: string): (r: string)
    ensures |r| >= |s|
    ensures |s| == 1 ==> r == LowerChar(s[0])
    ensures forall c | c in r :: !IsAsciiUpper(c)
  {
    if s == [] then [] else LowerChar(s[0]) + Lower(s[1..])
  }

  /** `toLowerCase()` works character by character: lowering a concatenation is
      concatenating the lowered parts. With the one-character case of Lower this fixes
      Lower on every title. */
  lemma {:induction false} LowerAppend(a: string, b: string)
    ensures Lower(a + b) == Lower(a) + Lower(b)
    decreases |a|
  {
    if a == [] {
      assert a + b == b;
    } else {
      assert (a + b)[0] == a[0] && (a + b)[1..] == a[1..] + b;
      LowerAppend(a[1..], b);
    }
  }

  /** KELVIN SIGN lowers to `k`, which the filter keeps: the title made of it alone gives
      the slug `k`. */
  lemma KelvinSignSlug()
    ensures GenerateSlug("\U{212A}") == "k"
  {
    assert Lower("\U{212A}") == "k";
    assert DeleteDisallowed("k") == "k";
    assert HyphenateSpaces("k") == "k";
  }

  /** On text without the two letters that lower to more than one character or to another
      letter than expected, `toLowerCase()` works position by position. */
  lemma {:induction false} LowerByPosition(s: string)
    requires forall c | c in s :: c != '\U{212A}' && c != '\U{0130}'
    ensures |Lower(s)| == |s|
    ensures forall i :: 0 <= i < |s| ==> [Lower(s)[i]] == LowerChar(s[i])
  {
    if s != [] {
      assert s[0] in s;
      assert forall c | c in s[1..] :: c in s;
      LowerByPosition(s[1..]);
      assert |LowerChar(s[0])| == 1;
      forall i | 0 <= i < |s|
        ensures [Lower(s)[i]] == LowerChar(s[i])
      {
        if i > 0 {
          assert Lower(s)[i] == Lower(s[1..])[i - 1] && s[i] == s[1..][i - 1];
        }
      }
    }
  }

  /** `.replace(/[^\w\s-]/g, '')`: the kept characters of `s`, in order, each as often as
      in `s`; nothing else. */
  function DeleteDisallowed(s: string): (r: string)
    ensures forall c | c in r :: IsKept(c)
    ensures IsSubsequence(r, s)
    ensures forall c :: IsKept(c) ==> multiset(r)[c] == multiset(s)[c]
    ensures forall c :: !IsKept(c) ==> multiset(r)[c] == 0
  {
    if s == [] then []
    else
      var rest := DeleteDisallowed(s[1..]);
      assert s == [s[0]] + s[1..];
      if IsKept(s[0]) then
        assert ([s[0]] + rest)[1..] == rest;
        [s[0]] + rest
      else
        assert rest != [] ==> rest[0] in rest;
        rest
  }

  /** `.replace(/\s+/g, '-')`: every maximal run of white space becomes one `-`. The
      result is never longer, and empty only for the empty input. */
  function HyphenateSpaces(s: string): (r: string)
    ensures |r| <= |s|
    ensures r == [] <==> s == []
    decreases |s|
  {
    if s == [] then []
    else if IsSpace(s[0]) then "-" + HyphenateSpaces(TrimStart(s[1..]))
    else [s[0]] + HyphenateSpaces(s[1..])
  }

  /** `.substring(0, n)`: the first min(|s|, n) characters. */
  function Prefix(s: string, n: nat): (r: string)
    ensures |r| == if |s| <= n then |s| else n
    ensures r == s[..|r|]
  {
    if |s| <= n then s else s[..n]
  }

  /** generateSlug(title): at most 100 characters, each a lower-case ASCII letter, a digit,
      `_` or `-` (so never white space). */
  function GenerateSlug(title: string): (slug: string)
    ensures IsSlug(slug)
  {
    var lowered := Lower(title);
    var kept := DeleteDisallowed(lowered);
    DeleteLeavesSlugCharsAndSpaces(lowered);
    HyphenateRemovesSpaces(kept);
    Prefix(HyphenateSpaces(kept), MaxLength)
  }

  lemma {:induction false} DeleteLeavesSlugCharsAndSpaces(s: string)
    requires forall c | c in s :: !IsAsciiUpper(c)
    ensures forall c | c in DeleteDisallowed(s) :: IsSlugChar(c) || IsSpace(c)
  {
    if s != [] {
      DeleteLeavesSlugCharsAndSpaces(s[1..]);
    }
  }

  lemma {:induction false} HyphenateRemovesSpaces(s: string)
    requires forall c | c in s :: IsSlugChar(c) || IsSpace(c)
    ensures forall c | c in HyphenateSpaces(s) :: IsSlugChar(c)
    decreases |s|
  {
    if s == [] {
    } else if IsSpace(s[0]) {
      var t := TrimStart(s[1..]);
      assert forall c | c in t :: c in s[1..];
      HyphenateRemovesSpaces(t);
    } else {
      HyphenateRemovesSpaces(s[1..]);
    }
  }

  /** A leading run of white space becomes one `-`. */
  lemma {:induction false} HyphenateLeadingRun(w: string, b: string)
    requires w != [] && forall c | c in w :: IsSpace(c)
    requires b == [] || !IsSpace(b[0])
    ensures HyphenateSpaces(w + b) == "-" + HyphenateSpaces(b)
  {
    var s := w + b;
    assert w[0] in w && s[0] == w[0];
    assert s[1..] == w[1..] + b;
    assert forall c | c in w[1..] :: c in w;
    TrimStartOfSpaces(w[1..], b);
  }

  /** A run of white space between two words becomes exactly one `-`. */
  lemma {:induction false} HyphenateRun(a: string, w: string, b: string)
    requires forall c | c in a :: !IsSpace(c)
    requires w != [] && forall c | c in w :: IsSpace(c)
    requires b == [] || !IsSpace(b[0])
    ensures HyphenateSpaces(a + w + b) == a + "-" + HyphenateSpaces(b)
  {
    assert a + w + b == a + (w + b);
    HyphenateSpacelessHead(a, w + b);
    HyphenateLeadingRun(w, b);
    assert a + ("-" + HyphenateSpaces(b)) == a + "-" + HyphenateSpaces(b);
  }

  /** A slug is a fixed point of every step of generateSlug. */
  lemma {:induction false} SlugIsFixedPoint(s: string)
    requires IsSlug(s)
    ensures GenerateSlug(s) == s
  {
    LowerOfUncased(s);
    DeleteOfKept(s);
    HyphenateOfSpaceless(s);
  }

  /** Characters that `toLowerCase()` leaves as they are (as far as LowerChar models it). */
  predicate IsUncased(c: char) { !IsAsciiUpper(c) && c != '\U{212A}' && c != '\U{0130}' }

  lemma {:induction false} LowerOfUncased(s: string)
    requires forall c | c in s :: IsUncased(c)
    ensures Lower(s) == s
  {
    if s != [] {
      assert s[0] in s && s == [s[0]] + s[1..];
      assert forall c | c in s[1..] :: c in s;
      LowerOfUncased(s[1..]);
    }
  }

  lemma {:induction false} DeleteOfKept(s: string)
    requires forall c | c in s :: IsKept(c)
    ensures DeleteDisallowed(s) == s
  {
    if s != [] {
      assert s[0] in s && s == [s[0]] + s[1..];
      assert forall c | c in s[1..] :: c in s;
      DeleteOfKept(s[1..]);
    }
  }

  lemma {:induction false} SymbolsAreDeleted(s: string)
    requires forall c | c in s :: !IsKept(c)
    ensures DeleteDisallowed(s) == []
  {
    if s != [] {
      assert s[0] in s;
      assert forall c | c in s[1..] :: c in s;
      SymbolsAreDeleted(s[1..]);
    }
  }

  /** A white-space-free head is copied through unchanged. */
  lemma {:induction false} HyphenateSpacelessHead(a: string, b: string)
    requires forall c | c in a :: !IsSpace(c)
    ensures HyphenateSpaces(a + b) == a + HyphenateSpaces(b)
  {
    if a != [] {
      assert a[0] in a && (a + b)[0] == a[0];
      assert (a + b)[1..] == a[1..] + b;
      assert forall c | c in a[1..] :: c in a;
      HyphenateSpacelessHead(a[1..], b);
    } else {
      assert a + b == b;
    }
  }

  lemma {:induction false} HyphenateOfSpaceless(s: string)
    requires forall c | c in s :: !IsSpace(c)
    ensures HyphenateSpaces(s) == s
  {
    HyphenateSpacelessHead(s, []);
    assert s + [] == s;
  }

  /** generateSlug(generateSlug(t)) == generateSlug(t). */
  lemma {:induction false} GenerateSlugIdempotent(title: string)
    ensures GenerateSlug(GenerateSlug(title)) == GenerateSlug(title)
  {
    SlugIsFixedPoint(GenerateSlug(title));
  }

  /** An empty title, and a title made only of symbols, give the empty slug. */
  lemma {:induction false} GenerateSlugOfSymbols(title: string)
    requires forall c | c in title :: !IsKept(c) && IsUncased(c)
    ensures GenerateSlug(title) == ""
  {
    LowerOfUncased(title);
    SymbolsAreDeleted(title);
  }

  /** The characters of a slug word and of white space are all uncased and kept. */
  lemma {:induction false} WordsAndSpacesPassFilter(a: string, w: string, b: string)
    requires forall c | c in a :: IsSlugChar(c)
    requires forall c | c in w :: IsSpace(c)
    requires forall c | c in b :: IsSlugChar(c)
    ensures forall c | c in a + w + b :: IsUncased(c) && IsKept(c)
  {
    forall c | c in a + w + b
      ensures IsUncased(c) && IsKept(c)
    {
      assert c in a || c in w || c in b;
    }
  }

  /** Two words of slug characters separated by white space become the two words joined by
      one `-`. */
  lemma {:induction false} GenerateSlugJoinsWords(a: string, w: string, b: string)
    requires forall c | c in a :: IsSlugChar(c)
    requires w != [] && forall c | c in w :: IsSpace(c)
    requires forall c | c in b :: IsSlugChar(c)
    requires |a| + 1 + |b| <= MaxLength
    ensures GenerateSlug(a + w + b) == a + "-" + b
  {
    var t := a + w + b;
    WordsAndSpacesPassFilter(a, w, b);
    LowerOfUncased(t);
    DeleteOfKept(t);
    assert b != [] ==> b[0] in b;
    HyphenateRun(a, w, b);
    HyphenateOfSpaceless(b);
    assert HyphenateSpaces(DeleteDisallowed(Lower(t))) == a + "-" + b;
  }

  /** A title of at most 100 ASCII word characters keeps its length, and each capital becomes
      its lower-case letter in place. */
  lemma {:induction false} GenerateSlugOfAsciiWord(title: string)
    requires |title| <= MaxLength && forall c | c in title :: IsWordChar(c)
    ensures |GenerateSlug(title)| == |title|
    ensures forall i :: 0 <= i < |title| ==>
              GenerateSlug(title)[i] == if IsAsciiUpper(title[i]) then AsciiLower(title[i]) else title[i]
  {
    LowerByPosition(title);
    var l := Lower(title);
    forall i | 0 <= i < |l|
      ensures IsWordChar(l[i]) && !IsSpace(l[i])
      ensures l[i] == if IsAsciiUpper(title[i]) then AsciiLower(title[i]) else title[i]
    {
      assert title[i] in title;
      assert [l[i]] == LowerChar(title[i]);
    }
    assert forall c | c in l :: IsKept(c) && !IsSpace(c);
    DeleteOfKept(l);
    HyphenateOfSpaceless(l);
  }

  /** `${slug}-${counter}`: the candidate the uniqueness probe tries for `counter`. */
  function Suffixed(slug: string, counter: nat): (r: string)
    ensures |r| > |slug| + 1 && r[..|slug|] == slug && r[|slug|] == '-'
    ensures r[|slug| + 1..] == Decimal(counter)
  {
    slug + "-" + Decimal(counter)
  }

  /** The third candidate name for `a` is the text `a-3`. */
  lemma SuffixedExample()
    ensures Suffixed("a", 3) == "a-3" && Suffixed("post", 12) == "post-12"
  {
  }

  /** Distinct counters give distinct candidates, so the probe never tries a name twice. */
  lemma {:induction false} SuffixedInjective(slug: string, a: nat, b: nat)
    requires Suffixed(slug, a) == Suffixed(slug, b)
    ensures a == b
  {
    var n := |slug| + 1;
    assert Decimal(a) == Suffixed(slug, a)[n..];
    assert Decimal(b) == Suffixed(slug, b)[n..];
    DecimalInjective(a, b);
  }
}
