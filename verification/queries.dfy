/** The fuzzy query the search builds, as data: fuzzy term queries on one
    field each, combined by boolean queries with MUST or SHOULD clauses.
    Similarities and boosts are in tenths (0.7 is 7, a boost of 1.0 is 10). */
module Queries {
  import opened Text
  import opened Documents

  datatype Occur = Must | Should

  datatype Query =
    | Fuzzy(field: string, text: string, minSimilarity: nat, boost: nat)
    | Boolean(clauses: seq<Clause>, boost: nat)

  datatype Clause = Clause(query: Query, occur: Occur)

  /** The boost every query starts with (1.0). */
  const DefaultBoost: nat := 10

  const TitleSimilarity: nat := 7
  const AuthorSimilarity: nat := 7
  const TagsSimilarity: nat := 9

  const TitleBoost: nat := 10
  const AuthorBoost: nat := 9
  const TagsBoost: nat := 5

  /** Setting `Query.Boost`: only the top node's boost changes. */
  function WithBoost(q: Query, boost: nat): (r: Query)
    ensures r.boost == boost
    ensures r.Fuzzy? <==> q.Fuzzy?
    ensures r.Fuzzy? ==> r.field == q.field && r.text == q.text && r.minSimilarity == q.minSimilarity
    ensures r.Boolean? ==> r.clauses == q.clauses
    ensures Pieces(r) == Pieces(q)
  {
    match q
    case Fuzzy(f, t, s, _) => Fuzzy(f, t, s, boost)
    case Boolean(cs, _) => Boolean(cs, boost)
  }

  /** A per-field query: either one fuzzy term on `field`, or a boolean query
      of at least two MUST clauses, each a fuzzy term on `field` with the
      default boost; all with the given similarity. */
  predicate FieldQuery(q: Query, field: string, similarity: nat) {
    match q
    case Fuzzy(f, _, s, _) => f == field && s == similarity
    case Boolean(cs, _) =>
      && |cs| >= 2
      && forall i :: 0 <= i < |cs| ==>
           && cs[i].occur == Must
           && cs[i].query.Fuzzy?
           && cs[i].query.field == field
           && cs[i].query.minSimilarity == similarity
           && cs[i].query.boost == DefaultBoost
  }

  function LeafText(q: Query): string {
    if q.Fuzzy? then q.text else ""
  }

  /** The texts a per-field query looks for, in clause order. */
  function Pieces(q: Query): (ps: seq<string>)
    ensures |ps| >= 1
  {
    match q
    case Fuzzy(_, t, _, _) => [t]
    case Boolean(cs, _) =>
      if |cs| == 0 then [""] else seq(|cs|, i requires 0 <= i < |cs| => LeafText(cs[i].query))
  }

  /** The texts searched for in every field: the lower-cased space-separated
      pieces of the trimmed query when it holds a space, otherwise the trimmed
      query itself. */
  function SearchPieces(query: string): seq<string> {
    var trimmed := Trim(query);
    if ' ' in trimmed then
      var pieces := Split(trimmed, ' ');
      seq(|pieces|, i requires 0 <= i < |pieces| => Lower(pieces[i]))
    else [trimmed]
  }

  /** The per-field query for one word or a phrase: a phrase (a trimmed query
      with a space in it) becomes one lower-cased MUST fuzzy clause per
      space-separated piece, empty pieces included; a single word becomes one
      fuzzy term on the trimmed query. */
  function QueryTerm(field: string, query: string, similarity: nat): (q: Query)
    ensures FieldQuery(q, field, similarity)
    ensures q.boost == DefaultBoost
    ensures q.Boolean? <==> ' ' in Trim(query)
    ensures q.Fuzzy? ==> q.text == Trim(query)
    ensures q.Boolean? ==> |q.clauses| == Count(Trim(query), ' ') + 1
    ensures forall i :: 0 <= i < |Pieces(q)| ==> ' ' !in Pieces(q)[i]
    ensures Pieces(q) == SearchPieces(query)
  {
    var trimmed := Trim(query);
    var pieces := Split(trimmed, ' ');
    SplitCount(trimmed, ' ');
    CountZero(trimmed, ' ');
    SplitPiecesHaveNoSeparator(trimmed, ' ');
    if |pieces| > 1 then
      PhraseFacts(field, pieces, similarity);
      Phrase(field, pieces, similarity)
    else
      Fuzzy(field, trimmed, similarity, DefaultBoost)
  }

  /** The boolean query of a phrase: one lower-cased MUST fuzzy clause per
      piece. */
  function Phrase(field: string, pieces: seq<string>, similarity: nat): Query {
    Boolean(seq(|pieces|, i requires 0 <= i < |pieces| =>
                  Clause(Fuzzy(field, Lower(pieces[i]), similarity, DefaultBoost), Must)),
            DefaultBoost)
  }

  /** A phrase of at least two space-free pieces is a per-field query that
      looks for the lower-cased pieces, none of which holds a space. */
  lemma PhraseFacts(field: string, pieces: seq<string>, similarity: nat)
    requires |pieces| >= 2
    requires forall i :: 0 <= i < |pieces| ==> ' ' !in pieces[i]
    ensures var q := Phrase(field, pieces, similarity);
            && FieldQuery(q, field, similarity)
            && Pieces(q) == seq(|pieces|, i requires 0 <= i < |pieces| => Lower(pieces[i]))
            && forall i :: 0 <= i < |Pieces(q)| ==> ' ' !in Pieces(q)[i]
  {
    var q := Phrase(field, pieces, similarity);
    assert forall i :: 0 <= i < |pieces| ==> Pieces(q)[i] == Lower(pieces[i]);
    forall i | 0 <= i < |pieces| ensures ' ' !in Lower(pieces[i]) {
      LowerKeepsSpaces(pieces[i]);
    }
  }

  /** The whole per-field query in terms of `SearchPieces`: a phrase gives
      one MUST fuzzy clause per search piece, a single word one fuzzy term. */
  lemma QueryTermShape(field: string, query: string, similarity: nat)
    ensures var ps := SearchPieces(query);
            QueryTerm(field, query, similarity) ==
              if ' ' in Trim(query)
              then Boolean(seq(|ps|, i requires 0 <= i < |ps| => Clause(Fuzzy(field, ps[i], similarity, DefaultBoost), Must)),
                           DefaultBoost)
              else Fuzzy(field, Trim(query), similarity, DefaultBoost)
  {
    var q := QueryTerm(field, query, similarity);
    var ps := SearchPieces(query);
    if q.Boolean? {
      assert |q.clauses| == |ps|;
      forall i | 0 <= i < |ps|
        ensures q.clauses[i] == Clause(Fuzzy(field, ps[i], similarity, DefaultBoost), Must)
      {
        assert Pieces(q)[i] == LeafText(q.clauses[i].query);
      }
    }
  }

  /** Lower-casing commutes with joining on spaces. */
  lemma {:induction false} LowerJoin(ps: seq<string>)
    requires |ps| >= 1
    ensures Lower(Join(ps, ' ')) == Join(seq(|ps|, i requires 0 <= i < |ps| => Lower(ps[i])), ' ')
  {
    var lowered := seq(|ps|, i requires 0 <= i < |ps| => Lower(ps[i]));
    if |ps| > 1 {
      LowerJoin(ps[1..]);
      assert lowered[1..] == seq(|ps[1..]|, i requires 0 <= i < |ps[1..]| => Lower(ps[1..][i]));
      LowerConcat(ps[0] + [' '], Join(ps[1..], ' '));
      LowerConcat(ps[0], [' ']);
    }
  }

  /** Lower-casing works character by character. */
  lemma LowerConcat(a: string, b: string)
    ensures Lower(a + b) == Lower(a) + Lower(b)
  {
  }

  /** Joining the pieces of a per-field query with spaces gives back the
      trimmed query (lower-cased when it was a phrase): no character of the
      query is lost, reordered or invented. */
  lemma QueryTermRoundTrip(field: string, query: string, similarity: nat)
    ensures var q := QueryTerm(field, query, similarity);
            Join(Pieces(q), ' ') == (if q.Boolean? then Lower(Trim(query)) else Trim(query))
  {
    var q := QueryTerm(field, query, similarity);
    var trimmed := Trim(query);
    var pieces := Split(trimmed, ' ');
    if q.Boolean? {
      JoinSplit(trimmed, ' ');
      LowerJoin(pieces);
      assert Pieces(q) == seq(|pieces|, i requires 0 <= i < |pieces| => Lower(pieces[i]));
    }
  }

  /** The per-field query is determined by the trimmed query alone, with no
      reference to how it is split: its pieces are the only non-empty list
      of space-free texts that, joined with spaces, spell the trimmed query
      (lower-cased when it holds a space); a phrase has one MUST fuzzy clause
      on each of them, a single word is one fuzzy term on its only piece. */
  lemma QueryTermPiecesUnique(field: string, query: string, similarity: nat, ps: seq<string>)
    requires |ps| >= 1
    requires forall i :: 0 <= i < |ps| ==> ' ' !in ps[i]
    requires Join(ps, ' ') == (if ' ' in Trim(query) then Lower(Trim(query)) else Trim(query))
    ensures Pieces(QueryTerm(field, query, similarity)) == ps
    ensures QueryTerm(field, query, similarity) ==
              if ' ' in Trim(query)
              then Boolean(seq(|ps|, i requires 0 <= i < |ps| => Clause(Fuzzy(field, ps[i], similarity, DefaultBoost), Must)),
                           DefaultBoost)
              else Fuzzy(field, ps[0], similarity, DefaultBoost)
  {
    var q := QueryTerm(field, query, similarity);
    QueryTermRoundTrip(field, query, similarity);
    SplitJoin(ps, ' ');
    SplitJoin(Pieces(q), ' ');
    assert Pieces(q) == ps;
    QueryTermShape(field, query, similarity);
  }

  /** `c` is a SHOULD clause holding the per-field query on `field` for
      `text`: a fuzzy term or a phrase of MUST fuzzy terms with the given
      similarity, boosted by `boost`, looking for the pieces of `text`. */
  predicate IsFieldClause(c: Clause, field: string, text: string, similarity: nat, boost: nat) {
    && c.occur == Should
    && FieldQuery(c.query, field, similarity)
    && c.query.boost == boost
    && Pieces(c.query) == SearchPieces(text)
    && (c.query.Boolean? <==> ' ' in Trim(text))
  }

  /** One SHOULD clause of the fuzzy search query. */
  function FieldClause(field: string, text: string, similarity: nat, boost: nat): (c: Clause)
    ensures IsFieldClause(c, field, text, similarity, boost)
  {
    Clause(WithBoost(QueryTerm(field, text, similarity), boost), Should)
  }

  /** The fuzzy search query: the search text is lower-cased and stripped of
      diacritics, then the same per-field query is built for title, author
      and tags, in that order, with their similarities and boosts, as three
      SHOULD clauses. `removeDiacritics` stands for the helper of that name,
      whose code is not part of this model. */
  function FuzzyBooksQuery(searchTerm: string, removeDiacritics: string -> string): (q: Query)
    ensures q.Boolean? && q.boost == DefaultBoost && |q.clauses| == 3
    ensures var text := removeDiacritics(Lower(searchTerm));
            && IsFieldClause(q.clauses[0], TitleKey, text, TitleSimilarity, TitleBoost)
            && IsFieldClause(q.clauses[1], AuthorKey, text, AuthorSimilarity, AuthorBoost)
            && IsFieldClause(q.clauses[2], TagsKey, text, TagsSimilarity, TagsBoost)
  {
    var text := removeDiacritics(Lower(searchTerm));
    Boolean([ FieldClause(TitleKey, text, TitleSimilarity, TitleBoost),
              FieldClause(AuthorKey, text, AuthorSimilarity, AuthorBoost),
              FieldClause(TagsKey, text, TagsSimilarity, TagsBoost) ],
            DefaultBoost)
  }

  /** Every field of the fuzzy query looks for the same pieces, and joined
      with spaces they spell the normalized search text, trimmed. */
  lemma FuzzyBooksQueryPieces(searchTerm: string, removeDiacritics: string -> string, i: int)
    requires 0 <= i < 3
    ensures var text := Trim(removeDiacritics(Lower(searchTerm)));
            var sub := FuzzyBooksQuery(searchTerm, removeDiacritics).clauses[i].query;
            Join(Pieces(sub), ' ') == (if ' ' in text then Lower(text) else text)
  {
    var text := removeDiacritics(Lower(searchTerm));
    QueryTermRoundTrip(TitleKey, text, TitleSimilarity);
  }
}
