/** The home page (app/page.tsx): the feed query `getOpportunities`, the `q`
    search parameter, and the empty-state conditions of the rendered feed. */
module FeedPage {
  import opened Web
  import opened Text

  /** A row of the `opportunities` table. `id` and `createdAt` are assigned by
      the store; `kind` is the `type` column, a free string. */
  datatype Opportunity = Opportunity(
    id: nat,
    title: string,
    kind: string,
    organization: string,
    date: string,
    link: string,
    description: string,
    createdAt: int)

  /** A term the store's `title.ilike.%term%` filter reads literally: none of
      the LIKE wildcards `%` `_`, the escape `\`, nor the PostgREST filter
      syntax characters `,` `(` `)` `*` `"`. */
  predicate PlainTerm(term: string) {
    forall i :: 0 <= i < |term| ==> !FilterChar(term[i])
  }

  /** A character the store's filter string does not read literally. */
  predicate FilterChar(c: char) {
    c == '%' || c == '_' || c == '\\' || c == ',' || c == '(' || c == ')' || c == '*' || c == '"'
  }

  /** The row's title or description contains the term, ignoring case. */
  predicate Matches(o: Opportunity, term: string) {
    ContainsIgnoringCase(o.title, term) || ContainsIgnoringCase(o.description, term)
  }

  /** The rows of `rows` that match `term`, in their original order. */
  function MatchingRows(rows: seq<Opportunity>, term: string): (r: seq<Opportunity>)
    ensures forall o :: multiset(r)[o] == if Matches(o, term) then multiset(rows)[o] else 0
  {
    if rows == [] then []
    else
      var rest := MatchingRows(rows[1..], term);
      assert rows == [rows[0]] + rows[1..];
      if Matches(rows[0], term) then [rows[0]] + rest else rest
  }

  /** Ordered by `created_at`, newest first. */
  predicate NewestFirst(s: seq<Opportunity>) {
    forall i, j :: 0 <= i < j < |s| ==> s[i].createdAt >= s[j].createdAt
  }

  /** Inserts `o` into a newest-first sequence, keeping it newest-first. */
  function InsertByCreated(o: Opportunity, s: seq<Opportunity>): (r: seq<Opportunity>)
    requires NewestFirst(s)
    ensures NewestFirst(r)
    ensures multiset(r) == multiset(s) + multiset{o}
    ensures |r| == |s| + 1
    ensures r[0] == o || (s != [] && r[0] == s[0])
  {
    if s == [] || o.createdAt >= s[0].createdAt then
      NewestFirstCons(o, s);
      [o] + s
    else
      var rest := InsertByCreated(o, s[1..]);
      assert s == [s[0]] + s[1..];
      assert rest[0].createdAt <= s[0].createdAt;
      NewestFirstCons(s[0], rest);
      assert multiset([s[0]] + rest) == multiset{s[0]} + multiset(rest);
      [s[0]] + rest
  }

  /** A row no older than the head of a newest-first sequence can go in front. */
  lemma NewestFirstCons(x: Opportunity, s: seq<Opportunity>)
    requires NewestFirst(s)
    requires s == [] || s[0].createdAt <= x.createdAt
    ensures NewestFirst([x] + s)
  {
    var t := [x] + s;
    forall i, j | 0 <= i < j < |t| ensures t[i].createdAt >= t[j].createdAt {
      if i == 0 {
        assert t[j] == s[j - 1];
        assert s[0].createdAt >= s[j - 1].createdAt;
      } else {
        assert t[i] == s[i - 1] && t[j] == s[j - 1];
      }
    }
  }

  /** `.order('created_at', { ascending: false })`: a newest-first permutation. */
  function SortByCreated(s: seq<Opportunity>): (r: seq<Opportunity>)
    ensures NewestFirst(r)
    ensures multiset(r) == multiset(s)
  {
    if s == [] then []
    else
      assert s == [s[0]] + s[1..];
      InsertByCreated(s[0], SortByCreated(s[1..]))
  }

  /** The rows the query built at lines 11-19 selects: every row when the term
      is empty, otherwise the matching rows; newest first either way. */
  function QueryRows(table: seq<Opportunity>, term: string): (r: seq<Opportunity>)
    requires PlainTerm(term)
    ensures NewestFirst(r)
    ensures forall o :: multiset(r)[o] ==
                        (if term == "" || Matches(o, term) then multiset(table)[o] else 0)
  {
    if term == "" then SortByCreated(table)
    else SortByCreated(MatchingRows(table, term))
  }

  /** What the store answers to the query: the selected rows, a reply without
      error and without data, or an error. */
  datatype StoreAnswer = Rows | NoData | Failed(message: string)

  /** `getOpportunities(query)`: the selected rows, or `[]` whenever the store
      errs or returns no data; the error itself is only logged. */
  function GetOpportunities(table: seq<Opportunity>, query: string, answer: StoreAnswer): (r: seq<Opportunity>)
    requires PlainTerm(query)
    ensures NewestFirst(r)
    ensures !answer.Rows? ==> r == []
    ensures forall o :: multiset(r)[o] ==
                        (if answer.Rows? && (query == "" || Matches(o, query)) then multiset(table)[o] else 0)
  {
    match answer
    case Failed(_) => []
    case NoData => []
    case Rows => QueryRows(table, query)
  }

  /** `searchParams?.q || ''`: a missing parameter (or missing search params)
      gives the empty term. */
  function QueryParam(q: Option<string>): (term: string)
    ensures q.None? ==> term == ""
    ensures q.Some? ==> term == q.value
  {
    match q
    case None => ""
    case Some(s) => if s == "" then "" else s
  }

  /** The parts of the rendered feed that carry logic: the term echoed back in
      the search box, the cards in feed order, and which conditional blocks show. */
  datatype FeedView = FeedView(
    query: string,
    cards: seq<Opportunity>,
    showsResultsFor: bool,
    showsEmptyState: bool,
    showsClearSearch: bool)

  /** The feed section of `Home` for a term and the fetched opportunities. */
  function RenderFeed(query: string, opportunities: seq<Opportunity>): (v: FeedView)
    ensures v.query == query && v.cards == opportunities
    ensures v.showsResultsFor <==> query != ""
    ensures v.showsEmptyState <==> opportunities == []
    ensures v.showsClearSearch <==> opportunities == [] && query != ""
  {
    FeedView(
      query,
      opportunities,
      query != "",
      |opportunities| == 0,
      |opportunities| == 0 && query != "")
  }

  /** `Home`: read `q`, fetch the feed, render it. */
  function Home(q: Option<string>, table: seq<Opportunity>, answer: StoreAnswer): (v: FeedView)
    requires PlainTerm(QueryParam(q))
    ensures v.query == QueryParam(q)
    ensures NewestFirst(v.cards)
    ensures forall o :: multiset(v.cards)[o] ==
                        (if answer.Rows? && (QueryParam(q) == "" || Matches(o, QueryParam(q)))
                         then multiset(table)[o] else 0)
    ensures v.showsEmptyState <==> v.cards == []
    ensures v.showsClearSearch <==> v.cards == [] && QueryParam(q) != ""
  {
    var query := QueryParam(q);
    RenderFeed(query, GetOpportunities(table, query, answer))
  }

  /** With no term the feed is the whole table, newest first. */
  lemma EmptyTermShowsAll(table: seq<Opportunity>)
    ensures multiset(GetOpportunities(table, "", Rows)) == multiset(table)
    ensures NewestFirst(GetOpportunities(table, "", Rows))
  {
    var r := GetOpportunities(table, "", Rows);
    forall o ensures multiset(r)[o] == multiset(table)[o] { }
    assert multiset(r) == multiset(table);
  }

  /** With a term, a row is in the feed exactly when it is in the table and
      matches; the same holds for membership in the query's rows. */
  lemma {:induction false} FeedMembership(table: seq<Opportunity>, query: string, o: Opportunity)
    requires PlainTerm(query) && query != ""
    ensures o in GetOpportunities(table, query, Rows) <==> o in table && Matches(o, query)
  {
    var r := GetOpportunities(table, query, Rows);
    assert multiset(r)[o] == if Matches(o, query) then multiset(table)[o] else 0;
    assert o in r <==> multiset(r)[o] > 0;
    assert o in table <==> multiset(table)[o] > 0;
  }

  /** An empty table gives an empty feed, whatever the term. */
  lemma EmptyTableEmptyFeed(query: string, answer: StoreAnswer)
    requires PlainTerm(query)
    ensures GetOpportunities([], query, answer) == []
  {
    var r := GetOpportunities([], query, answer);
    forall o ensures multiset(r)[o] == 0 { }
    assert multiset(r) == multiset{};
    EmptyMultiset(r);
  }

  /** A sequence is empty exactly when its multiset is. */
  lemma EmptyMultiset(s: seq<Opportunity>)
    ensures s == [] <==> multiset(s) == multiset{}
  {
    if s != [] {
      assert s[0] in multiset(s);
    }
  }

  /** "Clear Search" shows exactly when a term is given and the feed is empty:
      the store failed or answered no data, or no row matches the term. */
  lemma {:induction false} ClearSearchShown(q: Option<string>, table: seq<Opportunity>, answer: StoreAnswer)
    requires PlainTerm(QueryParam(q))
    ensures Home(q, table, answer).showsClearSearch <==>
      QueryParam(q) != "" &&
      (!answer.Rows? || forall o :: o in table ==> !Matches(o, QueryParam(q)))
  {
    var query := QueryParam(q);
    var r := GetOpportunities(table, query, answer);
    if query != "" && answer.Rows? {
      if r == [] {
        forall o | o in table ensures !Matches(o, query) {
          assert multiset(r)[o] == 0;
        }
      } else {
        var o := r[0];
        assert multiset(r)[o] > 0;
        assert o in table && Matches(o, query);
      }
    }
  }

  /** A two-row table where only one row matches gives that row alone. */
  lemma {:induction false} OneOfTwo(a: Opportunity, b: Opportunity, term: string)
    requires PlainTerm(term) && term != ""
    requires Matches(a, term) && !Matches(b, term)
    ensures GetOpportunities([a, b], term, Rows) == [a]
  {
    assert [a, b][1..] == [b];
    assert MatchingRows([b], term) == [];
    assert MatchingRows([a, b], term) == [a];
  }

  /** A two-row table where only the second row matches gives that row alone. */
  lemma {:induction false} SecondOfTwo(a: Opportunity, b: Opportunity, term: string)
    requires PlainTerm(term) && term != ""
    requires !Matches(a, term) && Matches(b, term)
    ensures GetOpportunities([a, b], term, Rows) == [b]
  {
    assert [a, b][1..] == [b];
    assert MatchingRows([b], term) == [b];
    assert MatchingRows([a, b], term) == [b];
  }

  /** A table where no row matches gives the empty feed. */
  lemma {:induction false} NoneOfTwo(a: Opportunity, b: Opportunity, term: string)
    requires PlainTerm(term) && term != ""
    requires !Matches(a, term) && !Matches(b, term)
    ensures GetOpportunities([a, b], term, Rows) == []
  {
    assert [a, b][1..] == [b];
    assert MatchingRows([b], term) == [];
    assert MatchingRows([a, b], term) == [];
  }

  /** Two sample rows: a Java hackathon and a Go meetup. */
  predicate HackathonRow(o: Opportunity) {
    o == Opportunity(1, "Java Hackathon", "Hackathon", "Acme", "Dec 25", "https://a", "build with Java", 2)
  }

  predicate MeetupRow(o: Opportunity) {
    o == Opportunity(2, "Go Meetup", "Webinar", "Gophers", "Jan 5", "https://g", "learn Go", 1)
  }

  predicate ScenarioRows(java: Opportunity, meetup: Opportunity) {
    HackathonRow(java) && MeetupRow(meetup)
  }

  /* Terms and rows are parameters of the lemmas below so that the solver
     works from the facts asserted in them instead of unfolding the
     definitions on literals. */

  /** "java" matches the hackathon's title. */
  lemma JavaMatchesHackathon(java: Opportunity, term: string)
    requires HackathonRow(java) && term == "java"
    ensures Matches(java, term)
  {
    assert Lower(term) == "java";
    assert Lower(java.title)[..4] == "java";
  }

  /** "java" matches neither text of the meetup: neither has a 'j'. */
  lemma JavaMissesMeetup(meetup: Opportunity, term: string)
    requires MeetupRow(meetup) && term == "java"
    ensures !Matches(meetup, term)
  {
    assert Lower(term)[0] == 'j';
    CaseMissing(meetup.title, term, 'j');
    CaseMissing(meetup.description, term, 'j');
  }

  /** "GO" matches the meetup's title. */
  lemma GoMatchesMeetup(meetup: Opportunity, term: string)
    requires MeetupRow(meetup) && term == "GO"
    ensures Matches(meetup, term)
  {
    assert Lower(term) == "go";
    assert Lower(meetup.title)[..2] == "go";
  }

  /** "GO" matches neither text of the hackathon: neither has a 'g'. */
  lemma GoMissesHackathon(java: Opportunity, term: string)
    requires HackathonRow(java) && term == "GO"
    ensures !Matches(java, term)
  {
    assert Lower(term)[0] == 'g';
    CaseMissing(java.title, term, 'g');
    CaseMissing(java.description, term, 'g');
  }

  /** "python" matches no text of the hackathon: neither has a 'p'. */
  lemma PythonMissesHackathon(java: Opportunity, term: string)
    requires HackathonRow(java) && term == "python"
    ensures !Matches(java, term)
  {
    PythonMissesText(java.title, term);
    PythonMissesText(java.description, term);
  }

  /** "python" is not in either text of the hackathon: neither has a 'p'. */
  lemma PythonMissesText(text: string, term: string)
    requires text == "Java Hackathon" || text == "build with Java"
    requires term == "python"
    ensures !ContainsIgnoringCase(text, term)
  {
    assert Lower(term)[0] == 'p';
    CaseMissing(text, term, 'p');
  }

  /** "python" matches no text of the meetup: neither has a 'y'. */
  lemma PythonMissesMeetup(meetup: Opportunity, term: string)
    requires MeetupRow(meetup) && term == "python"
    ensures !Matches(meetup, term)
  {
    assert Lower(term)[1] == 'y';
    CaseMissing(meetup.title, term, 'y');
    CaseMissing(meetup.description, term, 'y');
  }

  /** "java" finds only the Java hackathon. */
  lemma ScenarioJava(java: Opportunity, meetup: Opportunity, term: string)
    requires ScenarioRows(java, meetup) && term == "java"
    ensures GetOpportunities([java, meetup], term, Rows) == [java]
  {
    JavaMatchesHackathon(java, term);
    JavaMissesMeetup(meetup, term);
    OneOfTwo(java, meetup, term);
  }

  /** "GO" finds only the Go meetup. */
  lemma ScenarioGo(java: Opportunity, meetup: Opportunity, term: string)
    requires ScenarioRows(java, meetup) && term == "GO"
    ensures GetOpportunities([java, meetup], term, Rows) == [meetup]
  {
    GoMatchesMeetup(meetup, term);
    GoMissesHackathon(java, term);
    SecondOfTwo(java, meetup, term);
  }

  /** "python" finds nothing. */
  lemma ScenarioPython(java: Opportunity, meetup: Opportunity, term: string)
    requires ScenarioRows(java, meetup) && term == "python"
    ensures GetOpportunities([java, meetup], term, Rows) == []
  {
    PythonMissesHackathon(java, term);
    PythonMissesMeetup(meetup, term);
    NoneOfTwo(java, meetup, term);
  }
}
