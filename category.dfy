/** The two ways the server turns a category label into a partition: the
    forgiving `normalizeCategory` used when a book is created or updated, and
    the strict lookup the borrow and return routes do. */
module Category {
  import opened Values
  import opened Numbers

  /** The four per-category collections. */
  datatype Partition = Fiction | Science | History | NonFiction

  /** `toLowerCase` on one character (ASCII letters; see README). */
  function LowerChar(c: char): char {
    if 'A' <= c <= 'Z' then (c as int + 32) as char else c
  }

  /** `String.prototype.toLowerCase`. */
  function Lower(s: string): string {
    seq(|s|, i requires 0 <= i < |s| => LowerChar(s[i]))
  }

  /** What `/\s|-/g` matches. */
  predicate Separator(c: char) {
    IsSpace(c) || c == '-'
  }

  predicate NoSeparators(s: string) {
    forall i :: 0 <= i < |s| ==> !Separator(s[i])
  }

  /** `.replace(/\s|-/g, "")`: drops every white-space character and hyphen,
      keeps the rest in order. */
  function Strip(s: string): string {
    if s == [] then []
    else (if Separator(s[0]) then [] else [s[0]]) + Strip(s[1..])
  }

  /** No separator survives stripping. */
  lemma {:induction false} StripRemovesSeparators(s: string)
    ensures NoSeparators(Strip(s))
  {
    if s != [] {
      StripRemovesSeparators(s[1..]);
    }
  }

  /** Text without separators is left as it is. */
  lemma {:induction false} StripKeepsPlainText(s: string)
    requires NoSeparators(s)
    ensures Strip(s) == s
  {
    if s != [] {
      StripKeepsPlainText(s[1..]);
      assert s == [s[0]] + s[1..];
    }
  }

  /** The `categoryToCollection` table: two spellings lead to the
      non-fiction collection. */
  const CategoryToCollection: map<string, Partition> :=
    map["fiction" := Fiction, "science" := Science, "history" := History,
        "non-fiction" := NonFiction, "nonfiction" := NonFiction]

  /** The table the borrow and return routes look labels up in. */
  const RouteCollections: map<string, Partition> :=
    map["fiction" := Fiction, "science" := Science, "history" := History,
        "nonfiction" := NonFiction]

  /** The key of each partition in `RouteCollections`. */
  function KeyOf(p: Partition): (k: string)
    ensures k in RouteCollections && RouteCollections[k] == p
    ensures k in CategoryToCollection && CategoryToCollection[k] == p
  {
    match p
    case Fiction => "fiction"
    case Science => "science"
    case History => "history"
    case NonFiction => "nonfiction"
  }

  /** `normalizeCategory` on a string label: an empty label, or one that after
      lower-casing and stripping is not a key of the table, falls back to
      `"fiction"`. The result is always a key of the table, and never its
      hyphenated spelling, which stripping has made unreachable. */
  function NormalizeLabel(category: string): (key: string)
    ensures key in CategoryToCollection
    ensures key in RouteCollections
  {
    if category == [] then "fiction"
    else
      var n := Strip(Lower(category));
      StripRemovesSeparators(Lower(category));
      HyphenatedKeyUnreachable(n);
      if n in CategoryToCollection then n else "fiction"
  }

  /** Stripping removes every hyphen, so `"non-fiction"` never comes out of it. */
  lemma HyphenatedKeyUnreachable(n: string)
    requires NoSeparators(n)
    ensures n != "non-fiction"
  {
    var h := "non-fiction";
    assert Separator(h[3]);
  }

  /** `normalizeCategory` on a body field: a falsy (absent, null, false, 0 or
      empty) label gives `"fiction"`; a truthy non-string has no
      `toLowerCase` and throws, which is `None`. */
  function NormalizeCategory(v: Option<JsValue>): (r: Option<string>)
    ensures r.None? <==> Truthy(v) && !v.value.Str?
    ensures !Truthy(v) ==> r == Some("fiction")
    ensures r.Some? ==> r.value in RouteCollections
  {
    if !Truthy(v) then Some("fiction")
    else match v.value
      case Str(s) => Some(NormalizeLabel(s))
      case _ => None
  }

  /** What `collections[category.toLowerCase()]` yields in the borrow and
      return routes: one of the four collections, nothing (`undefined`), or a
      member every object inherits (`constructor`, `__proto__`), which is
      truthy but is not a collection. */
  datatype Route = Collection(p: Partition) | NoCollection | InheritedMember

  function RouteOf(category: string): Route {
    var key := Lower(category);
    if key in RouteCollections then Collection(RouteCollections[key])
    else if key == "constructor" || key == "__proto__" then InheritedMember
    else NoCollection
  }

  lemma LowerIdempotent(s: string)
    ensures Lower(Lower(s)) == Lower(s)
  {
  }

  /** Lower-casing works piece by piece. */
  lemma LowerAppend(a: string, b: string)
    ensures Lower(a + b) == Lower(a) + Lower(b)
  {
    assert forall i :: 0 <= i < |a + b| ==> Lower(a + b)[i] == (Lower(a) + Lower(b))[i];
  }

  /** Lower-casing a character does not change whether it is a separator. */
  lemma LowerCharSeparator(c: char)
    ensures Separator(LowerChar(c)) == Separator(c)
  {
  }

  /** Lower-casing neither creates nor removes separators, so it commutes
      with stripping. */
  lemma {:induction false} LowerStripCommute(s: string)
    ensures Lower(Strip(s)) == Strip(Lower(s))
  {
    if s != [] {
      LowerStripCommute(s[1..]);
      var head := if Separator(s[0]) then [] else [s[0]];
      LowerAppend(head, Strip(s[1..]));
      LowerCharSeparator(s[0]);
      var l := Lower(s);
      assert l[0] == LowerChar(s[0]) && l[1..] == Lower(s[1..]);
      assert Lower(head) == if Separator(l[0]) then [] else [l[0]];
    }
  }

  /** The routes accept a label exactly when its lower-case form is one of the
      four keys. */
  lemma RouteOfExact(category: string, p: Partition)
    ensures RouteOf(category) == Collection(p) <==> Lower(category) == KeyOf(p)
  {
  }

  /** Text without capital letters is its own lower-case form. */
  lemma LowerOfLowerCase(s: string)
    requires forall i :: 0 <= i < |s| ==> !('A' <= s[i] <= 'Z')
    ensures Lower(s) == s
  {
    assert forall i :: 0 <= i < |s| ==> Lower(s)[i] == s[i];
  }

  /** The keys are plain lower-case letters. */
  lemma KeyLetters(p: Partition)
    ensures forall i :: 0 <= i < |KeyOf(p)| ==> 'a' <= KeyOf(p)[i] <= 'z'
  {
  }

  lemma KeyHasNoSeparators(p: Partition)
    ensures NoSeparators(KeyOf(p))
  {
    KeyLetters(p);
  }

  /** Lower-case keys without separators come through normalization unchanged. */
  lemma NormalizeKey(p: Partition)
    ensures Lower(KeyOf(p)) == KeyOf(p) && Strip(KeyOf(p)) == KeyOf(p)
    ensures NormalizeLabel(KeyOf(p)) == KeyOf(p)
  {
    var k := KeyOf(p);
    assert Lower(k) == k by {
      KeyLetters(p);
      LowerOfLowerCase(k);
    }
    assert Strip(k) == k by {
      KeyHasNoSeparators(p);
      StripKeepsPlainText(k);
    }
  }

  /** Wherever the borrow and return routes accept a label, `normalizeCategory`
      picks the same partition. */
  lemma RoutersAgreeWhereRouteAccepts(category: string)
    requires RouteOf(category).Collection?
    ensures CategoryToCollection[NormalizeLabel(category)] == RouteOf(category).p
  {
    var p := RouteOf(category).p;
    RouteOfExact(category, p);
    NormalizeKey(p);
    assert category != [];
  }

  /** Stripping works piece by piece. */
  lemma {:induction false} StripAppend(a: string, b: string)
    ensures Strip(a + b) == Strip(a) + Strip(b)
  {
    if a == [] {
      assert a + b == b;
    } else {
      assert (a + b)[1..] == a[1..] + b;
      StripAppend(a[1..], b);
      var head := if Separator(a[0]) then [] else [a[0]];
      assert Strip(a + b) == head + (Strip(a[1..]) + Strip(b));
      assert Strip(a) == head + Strip(a[1..]);
    }
  }

  /** `normalizeCategory` once the label is known to strip down to `n`. */
  lemma NormalizeVia(category: string, n: string)
    requires category != [] && Strip(Lower(category)) == n
    ensures NormalizeLabel(category) == if n in CategoryToCollection then n else "fiction"
  {
  }

  /** A separator between two words disappears. */
  lemma StripJoined(a: string, c: char, b: string)
    requires NoSeparators(a) && NoSeparators(b) && Separator(c)
    ensures Strip(a + [c] + b) == a + b
  {
    StripAppend(a + [c], b);
    StripAppend(a, [c]);
    StripKeepsPlainText(a);
    StripKeepsPlainText(b);
    assert Strip([c]) == [];
  }

  /** A label that lower-cases to two words joined by one separator is
      normalized as the two words run together. */
  lemma SpellingVia(category: string, a: string, c: char, b: string)
    requires Lower(category) == a + [c] + b
    requires NoSeparators(a) && NoSeparators(b) && Separator(c)
    ensures NormalizeLabel(category) == if a + b in CategoryToCollection then a + b else "fiction"
  {
    assert |category| == |Lower(category)| > 0;
    StripJoined(a, c, b);
    NormalizeVia(category, a + b);
  }

  /** The two words of "non-fiction" run together into the one-word key. */
  lemma TwoWords()
    ensures NoSeparators("non") && NoSeparators("fiction")
    ensures "non" + "fiction" == "nonfiction" && "nonfiction" in CategoryToCollection
  {
  }

  lemma LowerSpaced(category: string)
    requires category == "Non Fiction"
    ensures Lower(category) == "non" + [' '] + "fiction" == "non fiction"
  {
    var t := "non" + [' '] + "fiction";
    assert |Lower(category)| == |t|;
    assert forall i :: 0 <= i < |t| ==> Lower(category)[i] == t[i];
  }

  /** `"Non Fiction"` strips down to the one-word key. */
  lemma SpacedSpelling(category: string)
    requires category == "Non Fiction"
    ensures Lower(category) == "non fiction"
    ensures NormalizeLabel(category) == "nonfiction"
  {
    LowerSpaced(category);
    TwoWords();
    SpellingVia(category, "non", ' ', "fiction");
  }

  lemma LowerHyphenated(category: string)
    requires category == "non-fiction"
    ensures Lower(category) == "non" + ['-'] + "fiction" == "non-fiction"
  {
    var t := "non" + ['-'] + "fiction";
    assert |Lower(category)| == |t|;
    assert forall i :: 0 <= i < |t| ==> Lower(category)[i] == t[i];
  }

  /** The hyphenated spelling strips down to the one-word key. */
  lemma HyphenatedSpelling(category: string)
    requires category == "non-fiction"
    ensures Lower(category) == "non-fiction"
    ensures NormalizeLabel(category) == "nonfiction"
  {
    LowerHyphenated(category);
    TwoWords();
    SpellingVia(category, "non", '-', "fiction");
  }

  /** Capital letters are lower-cased before the lookup. */
  lemma CapitalSpelling(category: string)
    requires category == "NONFICTION" || category == "NonFiction"
    ensures Lower(category) == "nonfiction"
    ensures NormalizeLabel(category) == "nonfiction"
  {
    var k := "nonfiction";
    assert |Lower(category)| == |k|;
    assert forall i :: 0 <= i < |k| ==> Lower(category)[i] == k[i];
    assert Lower(category) == k;
    NormalizeKey(NonFiction);
    assert Strip(k) == k;
    NormalizeVia(category, k);
  }

  /** Unknown and empty labels fall back to fiction. */
  lemma FallbackToFiction(category: string)
    requires category == "poetry" || category == ""
    ensures NormalizeLabel(category) == "fiction"
  {
    if category != "" {
      assert Lower(category) == category;
      assert Strip(category) == category by {
        StripKeepsPlainText(category);
      }
    }
  }

  /** The routes refuse a label whose lower-case form is not one of their
      four keys, and not an inherited member name either. */
  lemma RouteRefuses(category: string)
    requires Lower(category) == "non-fiction" || Lower(category) == "non fiction"
    ensures RouteOf(category) == NoCollection
  {
  }

  /** The routers disagree: spellings `normalizeCategory` files under
      non-fiction are refused by the borrow and return routes, which look up
      the lower-case label as it is. */
  lemma RoutersDisagree(category: string)
    requires category == "non-fiction" || category == "Non Fiction"
    ensures NormalizeLabel(category) == "nonfiction"
    ensures RouteOf(category) == NoCollection
  {
    if category == "non-fiction" {
      HyphenatedSpelling(category);
    } else {
      SpacedSpelling(category);
    }
    RouteRefuses(category);
  }

  /** Each key of `RouteCollections` is the key of its partition. */
  lemma KeyOfRoute(k: string)
    requires k in RouteCollections
    ensures KeyOf(RouteCollections[k]) == k
    ensures CategoryToCollection[k] == RouteCollections[k]
  {
  }

  /** Normalizing a normalized label changes nothing. */
  lemma NormalizeIdempotent(category: string)
    ensures NormalizeLabel(NormalizeLabel(category)) == NormalizeLabel(category)
  {
    var k := NormalizeLabel(category);
    KeyOfRoute(k);
    NormalizeKey(RouteCollections[k]);
  }

  /** Stripping twice strips no more. */
  lemma StripIdempotent(s: string)
    ensures Strip(Strip(s)) == Strip(s)
  {
    StripRemovesSeparators(s);
    StripKeepsPlainText(Strip(s));
  }

  /** Case does not matter to `normalizeCategory`. */
  lemma NormalizeIgnoresCase(category: string)
    ensures NormalizeLabel(Lower(category)) == NormalizeLabel(category)
  {
    if category != [] {
      LowerIdempotent(category);
      NormalizeVia(Lower(category), Strip(Lower(category)));
    }
  }

  /** Separators do not matter to `normalizeCategory`. */
  lemma NormalizeIgnoresSeparators(category: string)
    ensures NormalizeLabel(Strip(category)) == NormalizeLabel(category)
  {
    var n := Strip(Lower(category));
    LowerStripCommute(category);
    StripIdempotent(Lower(category));
    if Strip(category) == [] {
      assert n == [];
      if category != [] {
        NormalizeVia(category, n);
      }
    } else {
      NormalizeVia(Strip(category), n);
      NormalizeVia(category, n);
    }
  }

  /** Which partition a label is filed under: one of science, history or
      non-fiction exactly when its stripped lower-case form is that key, and
      fiction otherwise (unknown labels included). */
  lemma NormalizeLabelPartition(category: string, p: Partition)
    ensures CategoryToCollection[NormalizeLabel(category)] == p <==>
      if p == Fiction then Strip(Lower(category)) !in {"science", "history", "nonfiction"}
      else Strip(Lower(category)) == KeyOf(p)
  {
    if category == [] {
      assert Strip(Lower(category)) == [];
    }
    var n := Strip(Lower(category));
    StripRemovesSeparators(Lower(category));
    HyphenatedKeyUnreachable(n);
  }
}
