/** Concrete cases worked through the model: the three books the search class
    is populated with, and queries typed into its search box. */
module Fixtures {
  import opened Common
  import opened Text
  import opened Books
  import opened Documents
  import opened Queries
  import opened Search

  /** A stand-in for the diacritics helper that leaves the text alone. */
  function Unchanged(s: string): string {
    s
  }

  lemma FixtureIdsAreUnique()
    ensures UniqueIds(Fixture)
  {
  }

  /** The tags field of the first book, and of a book without tags. */
  lemma FixtureTagsText()
    ensures TagsText(DaVinciCode.tags) == "código, da vinci, "
    ensures TagsText(PetSematary.tags) == "pet, sematary, ramones, "
    ensures TagsText(None) == ""
  {
    TagsOfTwo("código", "da vinci");
    var three := ["pet", "sematary", "ramones"];
    assert three[..2] == ["pet", "sematary"];
    TagsOfTwo("pet", "sematary");
  }

  lemma TagsOfTwo(a: string, b: string)
    ensures AppendTags([a, b]) == a + ", " + b + ", "
  {
    assert [a, b][..1] == [a];
    assert [a][..0] == [];
    assert AppendTags([a]) == a + ", ";
  }

  /** The document written for the second book. */
  lemma FixtureDocument()
    ensures CreateDocument(TheShining) ==
              [ Field("id", "2", Yes, NotAnalyzed),
                Field("title", "O Iluminado", Yes, Analyzed),
                Field("author", "Stephen King", Yes, Analyzed),
                Field("tags", "iluminado, stanley kubrick, ", Yes, Analyzed) ]
  {
    TagsOfTwo("iluminado", "stanley kubrick");
    assert "iluminado" + ", " + "stanley kubrick" + ", " == "iluminado, stanley kubrick, ";
    assert Numbers.FormatInt(2) == "2" by {
      assert Numbers.NatToDigits(2) == "2";
    }
    var d := CreateDocument(TheShining);
    assert d[0] == Field("id", "2", Yes, NotAnalyzed);
    assert d[3] == Field("tags", "iluminado, stanley kubrick, ", Yes, Analyzed);
  }

  /** A string with no white space at either end is its own trim. */
  lemma TrimmedAlready(text: string)
    requires |text| > 0 && !IsWhiteSpace(text[0]) && !IsWhiteSpace(text[|text| - 1])
    ensures Trim(text) == text
  {
    assert TrimBounds(text, IsWhiteSpace, 0, |text|) && text == text[0..|text|];
    TrimUnique(text, IsWhiteSpace, text);
  }

  /** "Stephen King" becomes, in the title field, two MUST fuzzy terms. */
  lemma TwoWordQuery()
    ensures FuzzyBooksQuery("Stephen King", Unchanged).clauses[0]
            == Clause(Boolean([ Clause(Fuzzy(TitleKey, "stephen", 7, 10), Must),
                                Clause(Fuzzy(TitleKey, "king", 7, 10), Must) ], 10), Should)
  {
    StephenKingPieces();
    PhraseClause(TitleKey, "stephen king", TitleSimilarity, TitleBoost, "stephen", "king");
  }

  /** The clause for a text that searches for two pieces. */
  lemma PhraseClause(field: string, text: string, similarity: nat, boost: nat, a: string, b: string)
    requires ' ' in Trim(text) && SearchPieces(text) == [a, b]
    ensures FieldClause(field, text, similarity, boost)
            == Clause(Boolean([ Clause(Fuzzy(field, a, similarity, DefaultBoost), Must),
                                Clause(Fuzzy(field, b, similarity, DefaultBoost), Must) ], boost), Should)
  {
    QueryTermShape(field, text, similarity);
  }

  lemma StephenKingPieces()
    ensures Lower("Stephen King") == "stephen king"
    ensures ' ' in Trim("stephen king")
    ensures SearchPieces("stephen king") == ["stephen", "king"]
  {
    WordsAreLower();
    assert "stephen king" == "stephen" + " " + "king";
    PhraseOfTwo("stephen", "king");
  }

  /** Two lower-case words without white space, joined by one space, search
      for exactly those two words. */
  lemma PhraseOfTwo(a: string, b: string)
    requires |a| > 0 && |b| > 0
    requires forall i :: 0 <= i < |a| ==> !IsWhiteSpace(a[i])
    requires forall i :: 0 <= i < |b| ==> !IsWhiteSpace(b[i])
    requires Lower(a) == a && Lower(b) == b
    ensures ' ' in Trim(a + " " + b)
    ensures SearchPieces(a + " " + b) == [a, b]
  {
    var text := a + " " + b;
    assert text[0] == a[0] && text[|text| - 1] == b[|b| - 1];
    TrimmedAlready(text);
    assert text[|a|] == ' ';
    assert ' ' !in a && ' ' !in b by {
      assert IsWhiteSpace(' ');
    }
    SplitPrefix(a, b, ' ');
    SplitNoSeparator(b, ' ');
    assert a + [' '] + b == text;
  }

  lemma WordsAreLower()
    ensures Lower("stephen") == "stephen" && Lower("king") == "king"
    ensures Lower("pet") == "pet" && Lower("") == "" && Lower("sematary") == "sematary"
  {
  }

  /** A doubled space keeps an empty piece between the two words. */
  lemma DoubledSpaceQuery()
    ensures SearchPieces("pet  sematary") == ["pet", "", "sematary"]
  {
    WordsAreLower();
    assert "pet  sematary" == "pet" + "  " + "sematary";
    DoubledSpace("pet", "sematary");
  }

  /** Two lower-case words without white space, joined by two spaces, search
      for the first word, the empty string, and the second word. */
  lemma DoubledSpace(a: string, b: string)
    requires |a| > 0 && |b| > 0
    requires forall i :: 0 <= i < |a| ==> !IsWhiteSpace(a[i])
    requires forall i :: 0 <= i < |b| ==> !IsWhiteSpace(b[i])
    requires Lower(a) == a && Lower(b) == b
    ensures SearchPieces(a + "  " + b) == [a, "", b]
  {
    var text := a + "  " + b;
    assert text[0] == a[0] && text[|text| - 1] == b[|b| - 1];
    TrimmedAlready(text);
    assert text[|a|] == ' ';
    DoubledSpaceSplit(a, b);
    assert Lower("") == "";
  }

  lemma DoubledSpaceSplit(a: string, b: string)
    requires forall i :: 0 <= i < |a| ==> !IsWhiteSpace(a[i])
    requires forall i :: 0 <= i < |b| ==> !IsWhiteSpace(b[i])
    ensures Split(a + "  " + b, ' ') == [a, "", b]
  {
    var pieces := [a, "", b];
    assert ' ' !in a && ' ' !in b by {
      assert IsWhiteSpace(' ');
    }
    assert pieces[1..] == ["", b] && pieces[1..][1..] == [b];
    assert Join(pieces[1..][1..], ' ') == b;
    assert Join(pieces[1..], ' ') == [' '] + b;
    assert Join(pieces, ' ') == a + [' '] + ([' '] + b);
    assert a + [' '] + ([' '] + b) == a + "  " + b;
    SplitJoin(pieces, ' ');
  }

  /** A blank query is not an error: it becomes a fuzzy term on "". */
  lemma BlankQuery()
    ensures QueryTerm(TitleKey, "   ", TitleSimilarity) == Fuzzy(TitleKey, "", 7, 10)
  {
    var text := "   ";
    assert TrimBounds(text, IsWhiteSpace, 0, 0) && "" == text[0..0];
    TrimUnique(text, IsWhiteSpace, "");
  }

  /** Hits on the second, third and again the second book: two books come
      back, in first-hit order. */
  lemma RepeatedHits()
    ensures SearchBooks(IndexDocuments([TheShining, PetSematary, TheShining]), Fixture)
            == Success(Some([TheShining, PetSematary]))
  {
    var hits := [TheShining, PetSematary, TheShining];
    var ranked := IndexDocuments(hits);
    assert ranked[..Min(|ranked|, HitsLimit)] == ranked;
    HitIdsOfDocuments(hits);
    assert Ids(hits) == [2, 3, 2];
    DistinctOfRepeat(2, 3);
    ResolveFixture();
  }

  lemma DistinctOfRepeat(x: int, y: int)
    requires x != y
    ensures Distinct([x, y, x]) == [x, y]
  {
    assert [x, y, x][..2] == [x, y];
    assert [x, y][..1] == [x];
    assert [x][..0] == [];
  }

  lemma ResolveFixture()
    ensures Resolve([2, 3], Fixture) == [TheShining, PetSematary]
    ensures Resolve([7], Fixture) == []
  {
    assert Fixture[1..] == [TheShining, PetSematary];
    assert Fixture[1..][1..] == [PetSematary];
    assert FirstBookIndex(Fixture, 2) == 1;
    assert FirstBookIndex(Fixture[1..][1..], 3) == 0;
    assert FirstBookIndex(Fixture[1..], 3) == 1;
    assert FirstBookIndex(Fixture, 3) == 2;
    assert FindBook(Fixture, 2) == Some(TheShining);
    assert FindBook(Fixture, 3) == Some(PetSematary);
    assert FindBook(Fixture, 7) == None;
    assert [2, 3][1..] == [3];
  }

  /** No hits gives `null`; hits whose ids match no book give an empty list. */
  lemma NullVersusEmpty()
    ensures SearchBooks([], Fixture) == Success(None)
    ensures SearchBooks(IndexDocuments([Book(7, "Carrie", StephenKing, None)]), Fixture) == Success(Some([]))
  {
    var stray := [Book(7, "Carrie", StephenKing, None)];
    var ranked := IndexDocuments(stray);
    assert ranked[..Min(|ranked|, HitsLimit)] == ranked;
    HitIdsOfDocuments(stray);
    assert Ids(stray) == [7];
    assert Distinct([7]) == [7] by {
      assert [7][..0] == [];
    }
    ResolveFixture();
  }
}
