/** The registry key under which the desktop panel looks up custom content for
    a menu item: `createCustomContentKey` in js/desktop-panel.js. The section
    name is lower-cased; the item label is lower-cased, stripped of every
    character that is neither `\w` nor `\s`, and each maximal run of `\s` is
    replaced by one hyphen. */
module ContentKey {
  import opened Wrappers
  import opened Text

  /** `.replace(/[^\w\s]/g, '')`: keeps word characters and whitespace only. */
  function KeepWordAndSpace(s: string): (r: string)
    ensures |r| <= |s|
    ensures forall i :: 0 <= i < |r| ==> IsWordChar(r[i]) || IsSpace(r[i])
    ensures (forall i :: 0 <= i < |s| ==> IsWordChar(s[i]) || IsSpace(s[i])) ==> r == s
  {
    if |s| == 0 then ""
    else
      var rest := KeepWordAndSpace(s[1..]);
      if IsWordChar(s[0]) || IsSpace(s[0]) then [s[0]] + rest else rest
  }

  lemma {:induction false} KeepAppend(a: string, b: string)
    ensures KeepWordAndSpace(a + b) == KeepWordAndSpace(a) + KeepWordAndSpace(b)
  {
    if |a| == 0 {
      assert a + b == b;
    } else {
      assert (a + b)[1..] == a[1..] + b;
      KeepAppend(a[1..], b);
    }
  }

  /** `.replace(/\s+/g, '-')`: each maximal whitespace run becomes a single
      hyphen. `inRun` says whether the previous character was whitespace, in
      which case a further whitespace character belongs to the same run. */
  function CollapseSpaces(s: string, inRun: bool): (r: string)
    ensures NoSpace(r)
    ensures |s| > 0 && !IsSpace(s[0]) ==> |r| > 0 && r[0] == s[0]
    ensures |s| > 0 && IsSpace(s[0]) && !inRun ==> |r| > 0 && r[0] == '-'
  {
    if |s| == 0 then ""
    else if IsSpace(s[0]) then
      (if inRun then "" else "-") + CollapseSpaces(s[1..], true)
    else
      [s[0]] + CollapseSpaces(s[1..], false)
  }

  /** A string without whitespace is left as it is. */
  lemma {:induction false} CollapseNoSpace(s: string, inRun: bool)
    requires NoSpace(s)
    ensures CollapseSpaces(s, inRun) == s
  {
    if |s| > 0 {
      CollapseNoSpace(s[1..], false);
      assert s == [s[0]] + s[1..];
    }
  }

  /** Every character of the collapsed string is a hyphen or a character of the input. */
  lemma {:induction false} CollapseChars(s: string, inRun: bool)
    ensures forall i :: 0 <= i < |CollapseSpaces(s, inRun)| ==>
              CollapseSpaces(s, inRun)[i] == '-' || CollapseSpaces(s, inRun)[i] in s
  {
    if |s| > 0 {
      CollapseChars(s[1..], IsSpace(s[0]));
      assert forall c :: c in s[1..] ==> c in s;
    }
  }

  /** Collapsing a hyphen-free string never yields two hyphens in a row. */
  lemma {:induction false} CollapseNoDoubleHyphen(s: string, inRun: bool)
    requires forall i :: 0 <= i < |s| ==> s[i] != '-'
    ensures forall i :: 0 <= i < |CollapseSpaces(s, inRun)| - 1 ==>
              !(CollapseSpaces(s, inRun)[i] == '-' && CollapseSpaces(s, inRun)[i + 1] == '-')
  {
    if |s| > 0 {
      CollapseNoDoubleHyphen(s[1..], IsSpace(s[0]));
      if IsSpace(s[0]) && !inRun {
        var rest := s[1..];
        if |rest| > 0 && IsSpace(rest[0]) {
          assert CollapseSpaces(rest, true) == CollapseSpaces(rest[1..], true);
          ContinuedRun(rest[1..]);
        }
      }
    }
  }

  /** Inside a run, the collapsed remainder never starts with a hyphen. */
  lemma {:induction false} ContinuedRun(s: string)
    requires forall i :: 0 <= i < |s| ==> s[i] != '-'
    ensures |CollapseSpaces(s, true)| > 0 ==> CollapseSpaces(s, true)[0] != '-'
  {
    if |s| > 0 && IsSpace(s[0]) {
      ContinuedRun(s[1..]);
    }
  }

  predicate AllSpace(w: string) {
    forall i :: 0 <= i < |w| ==> IsSpace(w[i])
  }

  /** Inside a run, further whitespace adds nothing. */
  lemma {:induction false} InRunSwallows(w: string, y: string)
    requires AllSpace(w)
    ensures CollapseSpaces(w + y, true) == CollapseSpaces(y, true)
  {
    if |w| == 0 {
      assert w + y == y;
    } else {
      assert (w + y)[0] == w[0];
      assert (w + y)[1..] == w[1..] + y;
      InRunSwallows(w[1..], y);
    }
  }

  /** A maximal whitespace run of any length at the front becomes one hyphen,
      or nothing when it continues a run; the rest is collapsed on its own. */
  lemma {:induction false} CollapseRun(w: string, y: string, inRun: bool)
    requires |w| > 0 && AllSpace(w)
    requires |y| == 0 || !IsSpace(y[0])
    ensures CollapseSpaces(w + y, inRun) == (if inRun then "" else "-") + CollapseSpaces(y, false)
  {
    assert (w + y)[0] == w[0];
    assert (w + y)[1..] == w[1..] + y;
    InRunSwallows(w[1..], y);
    if |y| > 0 {
      assert CollapseSpaces(y, true) == [y[0]] + CollapseSpaces(y[1..], false);
    }
  }

  /** A maximal whitespace run after a word becomes exactly one hyphen, wherever
      the word and the run stand: the rest is collapsed in the same way. */
  lemma {:induction false} CollapseRunAfterWord(x: string, w: string, y: string)
    requires |x| > 0 && NoSpace(x)
    requires |w| > 0 && AllSpace(w)
    requires |y| == 0 || !IsSpace(y[0])
    ensures CollapseSpaces(x + w + y, false) == x + "-" + CollapseSpaces(y, false)
  {
    assert x + w + y == x + (w + y);
    CollapseWordPrefix(x, w + y, false);
    CollapseRun(w, y, false);
    assert x + ("-" + CollapseSpaces(y, false)) == x + "-" + CollapseSpaces(y, false);
  }

  /** The string without its hyphens. */
  function DropHyphens(s: string): string {
    if |s| == 0 then ""
    else if s[0] == '-' then DropHyphens(s[1..])
    else [s[0]] + DropHyphens(s[1..])
  }

  /** The word characters of the string, in order. */
  function WordChars(s: string): string {
    if |s| == 0 then ""
    else if IsWordChar(s[0]) then [s[0]] + WordChars(s[1..])
    else WordChars(s[1..])
  }

  /** Filtering and collapsing keep exactly the word characters, in order:
      the hyphens of the result are the only characters that are not. */
  lemma {:induction false} CollapseKeepsWordChars(s: string, inRun: bool)
    ensures DropHyphens(CollapseSpaces(KeepWordAndSpace(s), inRun)) == WordChars(s)
  {
    if |s| > 0 {
      var k := KeepWordAndSpace(s[1..]);
      CollapseKeepsWordChars(s[1..], IsSpace(s[0]));
      if IsWordChar(s[0]) {
        var c := CollapseSpaces(k, false);
        assert KeepWordAndSpace(s) == [s[0]] + k;
        assert ([s[0]] + k)[1..] == k;
        assert CollapseSpaces([s[0]] + k, inRun) == [s[0]] + c;
        assert ([s[0]] + c)[1..] == c;
      } else if IsSpace(s[0]) {
        var c := CollapseSpaces(k, true);
        assert KeepWordAndSpace(s) == [s[0]] + k;
        assert ([s[0]] + k)[1..] == k;
        assert CollapseSpaces([s[0]] + k, inRun) == (if inRun then "" else "-") + c;
        if inRun {
          assert "" + c == c;
        } else {
          assert ("-" + c)[1..] == c;
          assert DropHyphens("-" + c) == DropHyphens(c);
        }
        assert !IsWordChar(s[0]);
      } else {
        CollapseKeepsWordChars(s[1..], inRun);
      }
    }
  }

  /** The label part of the key. */
  function Slug(item: string): string {
    CollapseSpaces(KeepWordAndSpace(Lower(item)), false)
  }

  /** `createCustomContentKey(section, menuItem)`. */
  function Key(section: string, item: string): string {
    Lower(section) + "-" + Slug(item)
  }

  predicate IsSlugChar(c: char) {
    IsLower(c) || IsDigit(c) || c == '_' || c == '-'
  }

  /** A slug consists of lower-case letters, digits, `_` and `-` only, never holds
      two hyphens in a row, and carries over every word character of the
      lower-cased label, in order: without its hyphens it is exactly those. */
  lemma SlugShape(item: string)
    ensures forall i :: 0 <= i < |Slug(item)| ==> IsSlugChar(Slug(item)[i])
    ensures forall i :: 0 <= i < |Slug(item)| - 1 ==>
              !(Slug(item)[i] == '-' && Slug(item)[i + 1] == '-')
    ensures DropHyphens(Slug(item)) == WordChars(Lower(item))
  {
    CollapseKeepsWordChars(Lower(item), false);
    var k := KeepWordAndSpace(Lower(item));
    CollapseChars(k, false);
    CollapseNoDoubleHyphen(k, false);
    assert forall c :: c in k ==> !IsUpper(c) by {
      forall c | c in k ensures !IsUpper(c) {
        var j :| 0 <= j < |k| && k[j] == c;
        KeepChars(Lower(item), c);
      }
    }
  }

  /** Every character the filter keeps comes from its input. */
  lemma {:induction false} KeepChars(s: string, c: char)
    requires c in KeepWordAndSpace(s)
    ensures c in s
  {
    if |s| > 0 && c != s[0] {
      KeepChars(s[1..], c);
    }
  }

  /** Slugs ignore letter case. */
  lemma SlugIgnoresCase(item: string)
    ensures Slug(Lower(item)) == Slug(item)
  {
    LowerIdempotent(item);
  }

  /** Slugs ignore any inserted character that is neither a word character nor
      whitespace: punctuation and, in particular, hyphens. */
  lemma {:induction false} SlugIgnoresPunctuation(a: string, c: char, b: string)
    requires !IsWordChar(c) && !IsSpace(c)
    ensures Slug(a + [c] + b) == Slug(a + b)
  {
    LowerAround(a, c, b);
    LowerAppend(a, b);
    KeepDrops(Lower(a), c, Lower(b));
  }

  /** Lower-casing passes a non-letter through between the lowered halves. */
  lemma {:induction false} LowerAround(a: string, c: char, b: string)
    requires !IsUpper(c)
    ensures Lower(a + [c] + b) == Lower(a) + [c] + Lower(b)
  {
    LowerAppend(a + [c], b);
    LowerAppend(a, [c]);
    assert Lower([c]) == [c];
  }

  /** The filter drops a character that is neither a word character nor whitespace. */
  lemma {:induction false} KeepDrops(x: string, c: char, y: string)
    requires !IsWordChar(c) && !IsSpace(c)
    ensures KeepWordAndSpace(x + [c] + y) == KeepWordAndSpace(x + y)
  {
    var kx, ky := KeepWordAndSpace(x), KeepWordAndSpace(y);
    KeepAppend(x, [c]);
    assert KeepWordAndSpace([c]) == [];
    assert KeepWordAndSpace(x + [c]) == kx;
    KeepAppend(x + [c], y);
    KeepAppend(x, y);
  }

  /** When the section name has no hyphen, the key splits back into the
      lower-cased section and the slug at its first hyphen. */
  lemma KeySplits(section: string, item: string)
    requires forall i :: 0 <= i < |section| ==> section[i] != '-'
    ensures FirstIndexOf(Key(section, item), "-") == Some(|section|)
    ensures Key(section, item)[..|section|] == Lower(section)
    ensures Key(section, item)[|section| + 1..] == Slug(item)
  {
    var key := Key(section, item);
    assert OccursAt(key, "-", |section|);
    forall k | 0 <= k < |section| ensures !OccursAt(key, "-", k) {
      assert key[k] == LowerChar(section[k]);
    }
  }

  /** Collapsing passes a whitespace-free prefix through unchanged. */
  lemma {:induction false} CollapseWordPrefix(x: string, rest: string, inRun: bool)
    requires |x| > 0 && NoSpace(x)
    ensures CollapseSpaces(x + rest, inRun) == x + CollapseSpaces(rest, false)
  {
    assert (x + rest)[1..] == x[1..] + rest;
    if |x| > 1 {
      CollapseWordPrefix(x[1..], rest, false);
    }
    assert x == [x[0]] + x[1..];
  }

  predicate AllWordChars(s: string) {
    forall i :: 0 <= i < |s| ==> IsWordChar(s[i])
  }

  /** A label of two words separated by one space slugs to the two lower-cased
      words joined by a hyphen. */
  lemma SlugOfTwoWords(a: string, b: string)
    requires |a| > 0 && AllWordChars(a) && AllWordChars(b)
    ensures Slug(a + " " + b) == Lower(a) + "-" + Lower(b)
  {
    var la, lb := Lower(a), Lower(b);
    LowerWordChars(a);
    LowerWordChars(b);
    assert Lower(a + " " + b) == la + " " + lb by {
      LowerAppend(a + " ", b);
      LowerAppend(a, " ");
      assert Lower(" ") == " ";
    }
    KeepTwoWords(la, lb);
    CollapseTwoWords(la, lb);
  }

  /** The filter keeps two words and the space between them. */
  lemma KeepTwoWords(la: string, lb: string)
    requires AllWordChars(la) && AllWordChars(lb)
    ensures KeepWordAndSpace(la + " " + lb) == la + " " + lb
  {
    var s := la + " " + lb;
    forall i | 0 <= i < |s| ensures IsWordChar(s[i]) || IsSpace(s[i]) {
      if i < |la| { assert s[i] == la[i]; }
      else if i > |la| { assert s[i] == lb[i - |la| - 1]; }
    }
  }

  /** Two whitespace-free words around one space collapse to a hyphenated pair. */
  lemma {:induction false} CollapseTwoWords(la: string, lb: string)
    requires |la| > 0 && NoSpace(la) && NoSpace(lb)
    ensures CollapseSpaces(la + " " + lb, false) == la + "-" + lb
  {
    var t := " " + lb;
    assert la + " " + lb == la + t;
    CollapseWordPrefix(la, t, false);
    CollapseLeadingSpace(t, lb);
    assert la + ("-" + lb) == la + "-" + lb;
  }

  /** One space before a whitespace-free word becomes one hyphen. */
  lemma {:induction false} CollapseLeadingSpace(t: string, lb: string)
    requires t == " " + lb && NoSpace(lb)
    ensures CollapseSpaces(t, false) == "-" + lb
  {
    assert t[1..] == lb;
    CollapseNoSpace(lb, true);
  }

  /** Lowering keeps word characters word characters. */
  lemma LowerWordChars(a: string)
    requires AllWordChars(a)
    ensures AllWordChars(Lower(a)) && NoSpace(Lower(a))
  {
  }

  /** A one-word label slugs to its lower-cased self. */
  lemma SlugOfOneWord(a: string)
    requires AllWordChars(a)
    ensures Slug(a) == Lower(a)
  {
    CollapseNoSpace(Lower(a), false);
  }

  /** Lower-casing leaves a string without upper-case letters unchanged. */
  lemma LowerKeepsLowercase(s: string)
    requires forall i :: 0 <= i < |s| ==> !IsUpper(s[i])
    ensures Lower(s) == s
  {
  }

  lemma WeddingCakesParts(item: string)
    requires item == "Wedding Cakes"
    ensures Slug(item) == Lower("Wedding") + "-" + Lower("Cakes")
  {
    assert item == "Wedding" + " " + "Cakes";
    SlugOfTwoWords("Wedding", "Cakes");
  }

  lemma WeddingCakesLowered()
    ensures Lower("Wedding") + "-" + Lower("Cakes") == "wedding-cakes"
  {
    assert Lower("Wedding") == "wedding";
    assert Lower("Cakes") == "cakes";
  }

  /** The label "Wedding Cakes" slugs to `wedding-cakes`. */
  lemma WeddingCakesSlug(item: string)
    requires item == "Wedding Cakes"
    ensures Slug(item) == "wedding-cakes"
  {
    WeddingCakesParts(item);
    WeddingCakesLowered();
  }

  /** In section `products` the label "Wedding Cakes" yields the registered
      key `products-wedding-cakes`. */
  lemma WeddingCakesKey(section: string, item: string)
    requires section == "products" && item == "Wedding Cakes"
    ensures Key(section, item) == "products-wedding-cakes"
    ensures Key(section, item) in RegisteredKeys
  {
    WeddingCakesSlug(item);
    LowerKeepsLowercase(section);
    ProductsJoin(Lower(section), Slug(item));
    WeddingCakesRegistered(Key(section, item));
  }

  lemma ProductsJoin(section: string, slug: string)
    requires section == "products" && slug == "wedding-cakes"
    ensures section + "-" + slug == "products-wedding-cakes"
  {
  }

  lemma WeddingCakesRegistered(key: string)
    requires key == "products-wedding-cakes"
    ensures key in RegisteredKeys
  {
  }

  /** Labels that differ only in punctuation share a key: "Wedding Cakes!"
      yields the same key as "Wedding Cakes". */
  lemma ShoutedWeddingCakesKey(section: string, item: string)
    requires section == "products" && item == "Wedding Cakes!"
    ensures Key(section, item) == "products-wedding-cakes"
  {
    var plain := "Wedding Cakes";
    assert item == plain + ['!'] + "";
    SlugIgnoresPunctuation(plain, '!', "");
    assert plain + "" == plain;
    WeddingCakesKey(section, plain);
  }

  /** Two lower-case words joined by a hyphen slug to the two words run
      together: the hyphen is stripped, not kept. */
  lemma {:induction false} SlugStripsHyphen(a: string, b: string)
    requires AllWordChars(a) && AllWordChars(b)
    requires forall i :: 0 <= i < |a| ==> !IsUpper(a[i])
    requires forall i :: 0 <= i < |b| ==> !IsUpper(b[i])
    ensures Slug(a + "-" + b) == a + b
  {
    assert a + "-" + b == a + ['-'] + b;
    SlugIgnoresPunctuation(a, '-', b);
    assert AllWordChars(a + b) by {
      forall i | 0 <= i < |a + b| ensures IsWordChar((a + b)[i]) {
        if i < |a| { assert (a + b)[i] == a[i]; } else { assert (a + b)[i] == b[i - |a|]; }
      }
    }
    SlugOfOneWord(a + b);
    assert forall i :: 0 <= i < |a + b| ==> !IsUpper((a + b)[i]) by {
      forall i | 0 <= i < |a + b| ensures !IsUpper((a + b)[i]) {
        if i < |a| { assert (a + b)[i] == a[i]; } else { assert (a + b)[i] == b[i - |a|]; }
      }
    }
    LowerKeepsLowercase(a + b);
  }

  /** Slugging a slug can change it: "Wedding Cakes" slugs to
      `wedding-cakes`, which slugs to `weddingcakes`. */
  lemma {:induction false} HyphenIsStripped(item: string, a: string, b: string)
    requires item == "Wedding Cakes" && a == "wedding" && b == "cakes"
    ensures Slug(Slug(item)) == a + b
    ensures Slug(Slug(item)) != Slug(item)
  {
    WeddingCakesSlug(item);
    assert Slug(item) == a + "-" + b;
    assert AllWordChars(a) && AllWordChars(b);
    SlugStripsHyphen(a, b);
    assert |a + b| != |Slug(item)|;
  }

  /** The keys js/desktop-panel.js registers custom content under. */
  const RegisteredKeys: set<string> := {
    "services-mission",
    "products-gallery", "products-wedding-cakes", "products-cupcakes",
    "products-birthday-cakes", "products-pastries", "products-cookies", "products-pies",
    "contact-location", "contact-phone", "contact-form",
    "footer-story", "footer-team", "footer-policies"
  }

  /** The About section's keys carry the prefix `footer`, its element id, not
      `about`. */
  lemma AboutKeyPrefix(item: string)
    requires item == "Story"
    ensures Key("footer", item) in RegisteredKeys
    ensures Key("about", item) !in RegisteredKeys
  {
    SlugOfOneWord(item);
    assert Lower(item) == "story";
    LowerKeepsLowercase("footer");
    LowerKeepsLowercase("about");
    FooterStoryRegistered(Key("footer", item));
    AboutUnregistered(Key("about", item));
  }

  lemma FooterStoryRegistered(key: string)
    requires key == "footer" + "-" + "story"
    ensures key in RegisteredKeys
  {
    assert key == "footer-story";
  }

  /** No registered key starts with `about-`. */
  lemma AboutUnregistered(key: string)
    requires |key| >= 6 && key[..6] == "about-"
    ensures key !in RegisteredKeys
  {
    assert key[0] == 'a';
    forall r | r in RegisteredKeys ensures |r| > 0 && r[0] != 'a' {
    }
  }

  /** Every word of a label enters the slug: "Our Mission" misses the
      registered `services-mission`. */
  lemma OurMissionMisses(item: string)
    requires item == "Our Mission"
    ensures Key("services", item) !in RegisteredKeys
  {
    assert item == "Our" + " " + "Mission";
    SlugOfTwoWords("Our", "Mission");
    LowerKeepsLowercase("services");
    var k := Key("services", item);
    assert k[..12] == "services-" + Lower("Our");
    assert Lower("Our") == "our";
    ServicesOurUnregistered(k);
  }

  /** No registered key starts with `services-our`. */
  lemma ServicesOurUnregistered(key: string)
    requires |key| >= 12 && key[..12] == "services-our"
    ensures key !in RegisteredKeys
  {
    assert key[0] == 's' && key[9] == 'o';
    forall r | r in RegisteredKeys ensures |r| > 9 && (r[0] != 's' || r[9] == 'm') {
    }
  }
}
