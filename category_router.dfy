/** The category procedures: `getAll`, the category slug rule and
    `createCategory`. */
module CategoryRouter {
  import opened Text
  import opened Schema

  // ---------------------------------------------------------------------
  // The category slug: `name.toLowerCase().replace(/\s+/g, "-")`
  // ---------------------------------------------------------------------

  /** `s` without its leading whitespace. */
  function DropWhitespace(s: string): (r: string)
    ensures |r| <= |s|
    ensures r == [] || !IsWhitespace(r[0])
    ensures forall c :: c in r ==> c in s
  {
    if s != [] && IsWhitespace(s[0]) then DropWhitespace(s[1..]) else s
  }

  /** `.replace(/\s+/g, "-")`: each maximal run of whitespace becomes one hyphen. */
  function HyphenateRuns(s: string): string
    decreases |s|
  {
    if s == [] then []
    else if IsWhitespace(s[0]) then "-" + HyphenateRuns(DropWhitespace(s[1..]))
    else [s[0]] + HyphenateRuns(s[1..])
  }

  function CategorySlug(name: string): string {
    HyphenateRuns(ToLower(name))
  }

  lemma {:induction false} HyphenateRunsShape(s: string)
    decreases |s|
    ensures NoWhitespace(HyphenateRuns(s))
    ensures |HyphenateRuns(s)| <= |s|
    ensures s != [] ==> HyphenateRuns(s) != []
    ensures forall i :: 0 <= i < |HyphenateRuns(s)| ==> HyphenateRuns(s)[i] == '-' || HyphenateRuns(s)[i] in s
  {
    if s != [] {
      if IsWhitespace(s[0]) {
        var rest := DropWhitespace(s[1..]);
        HyphenateRunsShape(rest);
        assert forall c :: c in s[1..] ==> c in s;
      } else {
        HyphenateRunsShape(s[1..]);
        assert forall c :: c in s[1..] ==> c in s;
      }
    }
  }

  /** The category slug has no whitespace, is no longer than the name, is empty
      only for an empty name, and is made of hyphens and characters of the
      lower-cased name. */
  lemma CategorySlugShape(name: string)
    ensures NoWhitespace(CategorySlug(name))
    ensures |CategorySlug(name)| <= |name|
    ensures name != [] ==> CategorySlug(name) != []
    ensures forall i :: 0 <= i < |CategorySlug(name)| ==>
              CategorySlug(name)[i] == '-' || CategorySlug(name)[i] in ToLower(name)
  {
    HyphenateRunsShape(ToLower(name));
  }

  lemma {:induction false} HyphenateRunsOfWord(s: string)
    requires NoWhitespace(s)
    ensures HyphenateRuns(s) == s
  {
    if s != [] {
      HyphenateRunsOfWord(s[1..]);
      assert s == [s[0]] + s[1..];
    }
  }

  /** A name without whitespace keeps every character, lower-cased, punctuation
      included. */
  lemma CategorySlugOfWord(name: string)
    requires NoWhitespace(name)
    ensures CategorySlug(name) == ToLower(name)
  {
    forall i | 0 <= i < |name| ensures !IsWhitespace(ToLower(name)[i]) {
      LowerCharFacts(name[i]);
    }
    HyphenateRunsOfWord(ToLower(name));
  }

  lemma CategorySlugIdempotent(name: string)
    ensures CategorySlug(CategorySlug(name)) == CategorySlug(name)
  {
    var s := CategorySlug(name);
    CategorySlugShape(name);
    forall i | 0 <= i < |s| ensures !IsUpper(s[i]) {
      if s[i] != '-' {
        var k :| 0 <= k < |name| && ToLower(name)[k] == s[i];
        LowerCharFacts(name[k]);
      }
    }
    ToLowerOfLower(s);
    HyphenateRunsOfWord(s);
  }

  lemma {:induction false} DropWhitespaceConcat(a: string, b: string)
    requires !AllWhitespace(a)
    ensures DropWhitespace(a + b) == DropWhitespace(a) + b
  {
    assert a != [];
    assert (a + b)[1..] == a[1..] + b;
    if IsWhitespace(a[0]) {
      assert !AllWhitespace(a[1..]) by {
        var i :| 0 <= i < |a| && !IsWhitespace(a[i]);
        assert a[1..][i - 1] == a[i];
      }
      DropWhitespaceConcat(a[1..], b);
    }
  }

  lemma {:induction false} DropWhitespaceLast(s: string)
    requires !AllWhitespace(s)
    ensures DropWhitespace(s) != [] && DropWhitespace(s)[|DropWhitespace(s)| - 1] == s[|s| - 1]
  {
    if IsWhitespace(s[0]) {
      assert !AllWhitespace(s[1..]) by {
        var i :| 0 <= i < |s| && !IsWhitespace(s[i]);
        assert s[1..][i - 1] == s[i];
      }
      DropWhitespaceLast(s[1..]);
    }
  }

  lemma {:induction false} DropWhitespaceRun(w: string, b: string)
    requires AllWhitespace(w)
    requires b == [] || !IsWhitespace(b[0])
    ensures DropWhitespace(w + b) == b
  {
    if w == [] {
      assert w + b == b;
    } else {
      assert (w + b)[1..] == w[1..] + b;
      DropWhitespaceRun(w[1..], b);
    }
  }

  /** Splitting after a non-whitespace character does not change the slug. */
  lemma {:induction false} HyphenateRunsJoin(a: string, b: string)
    requires a == [] || !IsWhitespace(a[|a| - 1])
    decreases |a|
    ensures HyphenateRuns(a + b) == HyphenateRuns(a) + HyphenateRuns(b)
  {
    if a == [] {
      assert a + b == b;
    } else if IsWhitespace(a[0]) {
      var t := a[1..];
      assert (a + b)[1..] == t + b;
      assert !AllWhitespace(t) by {
        assert t[|t| - 1] == a[|a| - 1];
      }
      DropWhitespaceConcat(t, b);
      var d := DropWhitespace(t);
      DropWhitespaceLast(t);
      HyphenateRunsJoin(d, b);
    } else {
      assert (a + b)[1..] == a[1..] + b;
      HyphenateRunsJoin(a[1..], b);
    }
  }

  lemma HyphenateRunsRun(w: string, b: string)
    requires w != [] && AllWhitespace(w)
    requires b == [] || !IsWhitespace(b[0])
    ensures HyphenateRuns(w + b) == "-" + HyphenateRuns(b)
  {
    assert (w + b)[1..] == w[1..] + b;
    DropWhitespaceRun(w[1..], b);
  }

  /** A maximal run of whitespace (any length, any mix of `\s` characters) becomes
      exactly one hyphen. With CategorySlugOfWord this determines the slug of
      every name. */
  lemma CategorySlugRun(a: string, w: string, b: string)
    requires a == [] || !IsWhitespace(a[|a| - 1])
    requires w != [] && AllWhitespace(w)
    requires b == [] || !IsWhitespace(b[0])
    ensures CategorySlug(a + w + b) == CategorySlug(a) + "-" + CategorySlug(b)
  {
    ToLowerConcat(a + w, b);
    ToLowerConcat(a, w);
    var la, lw, lb := ToLower(a), ToLower(w), ToLower(b);
    if a != [] {
      LowerCharFacts(a[|a| - 1]);
    }
    if b != [] {
      LowerCharFacts(b[0]);
    }
    forall i | 0 <= i < |w| ensures IsWhitespace(lw[i]) {
      LowerCharFacts(w[i]);
    }
    assert la + lw + lb == la + (lw + lb);
    HyphenateRunsJoin(la, lw + lb);
    HyphenateRunsRun(lw, lb);
  }

  lemma CategorySlugTech()
    ensures CategorySlug("Tech") == "tech"
  {
    assert ToLower("Tech") == "tech";
    CategorySlugOfWord("Tech");
  }

  /** Punctuation survives, unlike in a post slug. */
  lemma CategorySlugPunctuation()
    ensures CategorySlug("C++ Tips") == "c++-tips"
  {
    assert ToLower("C++") == "c++" && ToLower("Tips") == "tips";
    CategorySlugOfWord("C++");
    CategorySlugOfWord("Tips");
    CategorySlugRun("C++", " ", "Tips");
    assert "C++" + " " + "Tips" == "C++ Tips";
  }

  /** Two spaces make one hyphen, unlike in a post slug, and a name of whitespace
      alone makes the slug "-". */
  lemma CategorySlugCollapses()
    ensures CategorySlug("a  b") == "a-b"
    ensures CategorySlug(" ") == "-"
  {
    CategorySlugOfWord("a");
    CategorySlugOfWord("b");
    CategorySlugRun("a", "  ", "b");
    assert "a" + "  " + "b" == "a  b";
    CategorySlugRun("", " ", "");
    assert "" + " " + "" == " ";
  }

  // ---------------------------------------------------------------------
  // getAll
  // ---------------------------------------------------------------------

  predicate ByName(s: seq<Category>) {
    forall i, j :: 0 <= i < j < |s| ==> LexLe(s[i].name, s[j].name)
  }

  predicate DistinctCategoryIds(s: seq<Category>) {
    forall i, j :: 0 <= i < j < |s| ==> s[i].id != s[j].id
  }

  function CategoryIds(s: seq<Category>): set<int> {
    set c | c in s :: c.id
  }

  /** Inserting into a list ordered by name; the result holds the same categories
      plus `x`. */
  function InsertByName(s: seq<Category>, x: Category): (r: seq<Category>)
    requires ByName(s) && DistinctCategoryIds(s)
    requires x.id !in CategoryIds(s)
    ensures ByName(r) && DistinctCategoryIds(r)
    ensures |r| == |s| + 1
    ensures forall c :: c in r <==> c in s || c == x
  {
    if s == [] then [x]
    else if LexLe(x.name, s[0].name) then
      assert forall j :: 0 <= j < |s| ==> LexLe(x.name, s[j].name) by {
        forall j | 0 <= j < |s| ensures LexLe(x.name, s[j].name) {
          if j > 0 {
            LexLeTransitive(x.name, s[0].name, s[j].name);
          }
        }
      }
      [x] + s
    else
      LexLeTotal(x.name, s[0].name);
      assert x.id !in CategoryIds(s[1..]) by {
        assert forall c :: c in s[1..] ==> c in s;
      }
      var rest := InsertByName(s[1..], x);
      assert forall c :: c in rest ==> LexLe(s[0].name, c.name) && c.id != s[0].id;
      [s[0]] + rest
  }

  /** `category.getAll`: every category, each once, ordered by name. */
  method GetAll(db: Database) returns (r: seq<Category>)
    requires db.Valid()
    ensures ByName(r) && DistinctCategoryIds(r)
    ensures forall c :: c in r ==> c.id in db.categories && db.categories[c.id] == c
    ensures forall id :: id in db.categories ==> db.categories[id] in r
    ensures CategoryIds(r) == db.categories.Keys
  {
    r := [];
    var todo := db.categories.Items;
    while todo != {}
      invariant todo <= db.categories.Items
      invariant ByName(r) && DistinctCategoryIds(r)
      invariant forall c :: c in r ==> c.id in db.categories && db.categories[c.id] == c && (c.id, c) !in todo
      invariant forall id :: id in db.categories && (id, db.categories[id]) !in todo ==> db.categories[id] in r
      decreases todo
    {
      var item :| item in todo;
      var c := item.1;
      assert item.0 in db.categories && db.categories[item.0] == c;
      assert c.id == item.0;
      assert item == (item.0, item.1);
      assert forall w :: w in r ==> w.id != c.id;
      r := InsertByName(r, c);
      todo := todo - {item};
    }
    forall k | k in db.categories.Keys ensures k in CategoryIds(r) {
      assert db.categories[k] in r;
    }
  }

  // ---------------------------------------------------------------------
  // createCategory
  // ---------------------------------------------------------------------

  /** What the client receives: the new row, a rejected input, or the generic
      error that replaces a database failure. */
  datatype CategoryResponse = Created(category: Category) | InvalidInput | ServerError(message: string)

  const FailureMessage: string := "Failed to create category in the database."

  /** `category.createCategory`: `name` must have at least one character; the id
      comes from the table's sequence and the description stays null. */
  method CreateCategory(db: Database, name: string) returns (r: CategoryResponse)
    requires db.Valid()
    modifies db
    ensures db.Valid()
    ensures r.InvalidInput? <==> |name| == 0
    ensures r.ServerError? <==> |name| > 0 && old(db.nextCategoryId) > SerialMax
    ensures r.ServerError? ==> r.message == FailureMessage
    ensures r.Created? ==>
      && r.category == Category(old(db.nextCategoryId), name, None, CategorySlug(name))
      && r.category.id !in old(db.categories)
      && db.categories == old(db.categories)[r.category.id := r.category]
    ensures !r.Created? ==> db.categories == old(db.categories) && db.nextCategoryId == old(db.nextCategoryId)
    ensures db.posts == old(db.posts) && db.postsToCategories == old(db.postsToCategories)
  {
    if |name| < 1 {
      return InvalidInput;
    }
    var inserted := db.InsertCategory(name, CategorySlug(name));
    match inserted
    case Inserted(row) =>
      r := Created(row);
    case InsertFailed(_) =>
      r := ServerError(FailureMessage);
  }
}
