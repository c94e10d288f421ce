/** How a book becomes an index document: four named fields, the tags
    flattened into one string, and the id written as decimal text. */
module Documents {
  import opened Common
  import opened Numbers
  import opened Books

  /** Whether the field's original text is kept in the index. */
  datatype Store = Yes | No

  /** Whether the field's text goes through the analyzer or is indexed as a
      single term. */
  datatype Indexing = Analyzed | NotAnalyzed

  datatype Field = Field(name: string, value: string, store: Store, index: Indexing)

  type Document = seq<Field>

  const IdKey: string := "id"
  const TitleKey: string := "title"
  const AuthorKey: string := "author"
  const TagsKey: string := "tags"

  /** What is appended after every tag. */
  const TagSeparator: string := ", "

  // ---------------------------------------------------------------------------
  // The tags field

  /** The text a string builder holds after appending `tag + ", "` for each
      tag in turn. */
  function AppendTags(tags: seq<string>): string {
    if |tags| == 0 then ""
    else AppendTags(tags[..|tags| - 1]) + tags[|tags| - 1] + TagSeparator
  }

  /** The tags field's text; a `null` tag list gives the empty string. */
  function TagsText(tags: Option<seq<string>>): (r: string)
    ensures tags.None? ==> r == ""
  {
    match tags
    case None => ""
    case Some(ts) => AppendTags(ts)
  }

  /** Sum over the tags of their length plus the separator's. */
  function TotalLength(tags: seq<string>): nat {
    if |tags| == 0 then 0 else TotalLength(tags[..|tags| - 1]) + |tags[|tags| - 1]| + |TagSeparator|
  }

  /** The tags field is exactly as long as the tags with a separator each. */
  lemma {:induction false} AppendTagsLength(tags: seq<string>)
    ensures |AppendTags(tags)| == TotalLength(tags)
  {
    if |tags| > 0 {
      AppendTagsLength(tags[..|tags| - 1]);
    }
  }

  /** Appending two tag lists one after the other is appending their
      concatenation. */
  lemma {:induction false} AppendTagsConcat(a: seq<string>, b: seq<string>)
    ensures AppendTags(a + b) == AppendTags(a) + AppendTags(b)
  {
    if |b| > 0 {
      var b' := b[..|b| - 1];
      assert (a + b)[..|a + b| - 1] == a + b';
      AppendTagsConcat(a, b');
    } else {
      assert a + b == a;
    }
  }

  /** Tag `k` appears in the tags field at offset `TotalLength(tags[..k])`,
      immediately followed by the separator: the field lists every tag, in
      list order. */
  lemma TagAt(tags: seq<string>, k: int)
    requires 0 <= k < |tags|
    ensures var r := AppendTags(tags);
            var start := TotalLength(tags[..k]);
            && start + |tags[k]| + |TagSeparator| <= |r|
            && r[start..start + |tags[k]|] == tags[k]
            && r[start + |tags[k]|..start + |tags[k]| + |TagSeparator|] == TagSeparator
  {
    var before := tags[..k];
    var after := tags[k + 1..];
    assert tags == before + [tags[k]] + after;
    AppendTagsConcat(before + [tags[k]], after);
    AppendTagsConcat(before, [tags[k]]);
    assert AppendTags([tags[k]]) == tags[k] + TagSeparator by {
      assert [tags[k]][..0] == [];
    }
    AppendTagsLength(before);
    var r := AppendTags(tags);
    assert r == AppendTags(before) + tags[k] + TagSeparator + AppendTags(after);
  }

  /** The string-builder loop that builds the tags field. */
  method BuildTagsText(tags: Option<seq<string>>) returns (text: string)
    ensures text == TagsText(tags)
    ensures tags.Some? ==> |text| == TotalLength(tags.value)
  {
    text := "";
    if tags.Some? {
      var ts := tags.value;
      var i := 0;
      while i < |ts|
        invariant 0 <= i <= |ts|
        invariant text == AppendTags(ts[..i])
      {
        assert ts[..i + 1][..i] == ts[..i];
        text := text + (ts[i] + TagSeparator);
        i := i + 1;
      }
      assert ts[..|ts|] == ts;
      AppendTagsLength(ts);
    }
  }

  // ---------------------------------------------------------------------------
  // Documents

  /** `Document.Get(name)`: the value of the first field with that name, or
      `null` when there is none. */
  function Get(doc: Document, name: string): Option<string> {
    if |doc| == 0 then None
    else if doc[0].name == name then Some(doc[0].value)
    else Get(doc[1..], name)
  }

  /** `Get` finds nothing exactly when no field has the name, and otherwise
      returns the value of the first field that has it. */
  lemma {:induction false} GetFirst(doc: Document, name: string)
    ensures Get(doc, name).None? <==> forall i :: 0 <= i < |doc| ==> doc[i].name != name
    ensures Get(doc, name).Some? ==>
              exists i :: && 0 <= i < |doc| && doc[i].name == name && doc[i].value == Get(doc, name).value
                          && forall j :: 0 <= j < i ==> doc[j].name != name
  {
    if |doc| > 0 && doc[0].name != name {
      var r := Get(doc[1..], name);
      GetFirst(doc[1..], name);
      assert forall i :: 0 < i < |doc| ==> doc[i] == doc[1..][i - 1];
      if r.Some? {
        var i :| && 0 <= i < |doc[1..]| && doc[1..][i].name == name && doc[1..][i].value == r.value
                 && forall j :: 0 <= j < i ==> doc[1..][j].name != name;
        assert forall j :: 0 <= j < i + 1 ==> doc[j].name != name by {
          forall j | 0 <= j < i + 1 ensures doc[j].name != name {
            if j > 0 { assert doc[j] == doc[1..][j - 1]; }
          }
        }
      }
    }
  }

  /** The document written for a book: the id as decimal text, stored and
      indexed as one term; title, author name and tags text, stored and
      analyzed. */
  function CreateDocument(book: Book): (doc: Document)
    ensures |doc| == 4
    ensures doc[0].name == IdKey && doc[0].store == Yes && doc[0].index == NotAnalyzed
    ensures forall i :: 1 <= i < 4 ==> doc[i].store == Yes && doc[i].index == Analyzed
    ensures doc[1].name == TitleKey && doc[2].name == AuthorKey && doc[3].name == TagsKey
  {
    [ Field(IdKey, FormatInt(book.id), Yes, NotAnalyzed),
      Field(TitleKey, book.title, Yes, Analyzed),
      Field(AuthorKey, book.author.name, Yes, Analyzed),
      Field(TagsKey, TagsText(book.tags), Yes, Analyzed) ]
  }

  /** Reading the fields back by name gives the book's id, title, author name
      and tags text; in particular converting the id field back to an `int`
      gives the book's id. */
  lemma DocumentFieldsRoundTrip(book: Book)
    ensures ToInt32(Get(CreateDocument(book), IdKey)) == Success(book.id)
    ensures Get(CreateDocument(book), TitleKey) == Some(book.title)
    ensures Get(CreateDocument(book), AuthorKey) == Some(book.author.name)
    ensures Get(CreateDocument(book), TagsKey) == Some(TagsText(book.tags))
  {
    var d := CreateDocument(book);
    assert Get(d, IdKey) == Some(FormatInt(book.id));
    FormatParseRoundTrip(book.id);
    assert IdKey != TitleKey && IdKey != AuthorKey && IdKey != TagsKey;
    assert TitleKey != AuthorKey && TitleKey != TagsKey && AuthorKey != TagsKey;
    assert d[1..][1..] == d[2..] && d[2..][1..] == d[3..];
    assert Get(d[3..], TagsKey) == Some(TagsText(book.tags));
    assert Get(d, TagsKey) == Get(d[1..], TagsKey) == Get(d[2..], TagsKey) == Get(d[3..], TagsKey);
    assert Get(d, AuthorKey) == Get(d[1..], AuthorKey) == Get(d[2..], AuthorKey);
    assert Get(d, TitleKey) == Get(d[1..], TitleKey);
  }

  /** The documents of an index built from `books`, in list order. */
  function IndexDocuments(books: seq<Book>): (docs: seq<Document>)
    ensures |docs| == |books|
  {
    seq(|books|, i requires 0 <= i < |books| => CreateDocument(books[i]))
  }

  /** The index-building loop: one document per book, added in list order. */
  method CreateIndex(books: seq<Book>) returns (docs: seq<Document>)
    ensures |docs| == |books|
    ensures forall i :: 0 <= i < |books| ==> docs[i] == CreateDocument(books[i])
    ensures docs == IndexDocuments(books)
  {
    docs := [];
    for i := 0 to |books|
      invariant |docs| == i
      invariant forall k :: 0 <= k < i ==> docs[k] == CreateDocument(books[k])
    {
      docs := docs + [CreateDocument(books[i])];
    }
  }
}
