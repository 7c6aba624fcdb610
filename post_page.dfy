/** The post page (app/post/page.tsx): the render-time guard and the server
    action `createPost`, which inserts one opportunity built from the form. */
module PostPage {
  import opened Web
  import opened FeedPage

  /** The six fields `createPost` reads from the submitted form. `kind` is the
      `type` select; the action stores whatever string arrives. */
  datatype PostForm = PostForm(
    title: string,
    kind: string,
    organization: string,
    date: string,
    link: string,
    description: string)

  /** The page render: a guest is sent to `/login`, a signed-in user sees the form. */
  function PostPageView(user: Option<User>): (o: Outcome)
    ensures user.None? <==> o == Redirect("/login")
    ensures user.Some? <==> o == Render
  {
    if user.None? then Redirect("/login") else Render
  }

  /** The row the insert creates: the six form values verbatim, with the id and
      creation time the store assigns. */
  function NewRow(form: PostForm, id: nat, createdAt: int): (o: Opportunity)
    ensures o.title == form.title && o.kind == form.kind
    ensures o.organization == form.organization && o.date == form.date
    ensures o.link == form.link && o.description == form.description
    ensures o.id == id && o.createdAt == createdAt
  {
    Opportunity(id, form.title, form.kind, form.organization, form.date,
                form.link, form.description, createdAt)
  }

  /** The `opportunities` table of the store, as the post action sees it. */
  class OpportunityTable {
    var rows: seq<Opportunity>

    constructor (initial: seq<Opportunity>)
      ensures rows == initial
    {
      rows := initial;
    }

    /** `createPost`: re-check the user, insert one row, redirect to `/` only
        when the insert reported no error. `insertError` is the store's reply;
        a failed insert writes nothing. */
    method CreatePost(user: Option<User>, form: PostForm, id: nat, createdAt: int,
                      insertError: Option<string>) returns (o: Outcome)
      modifies this
      ensures user.None? ==> o == Abort && rows == old(rows)
      ensures user.Some? && insertError.None? ==>
        o == Redirect("/") && rows == old(rows) + [NewRow(form, id, createdAt)]
      ensures user.Some? && insertError.Some? ==> o == Stay && rows == old(rows)
      ensures |rows| <= |old(rows)| + 1 && rows[..|old(rows)|] == old(rows)
    {
      if user.None? {
        return Abort;
      }
      var row := NewRow(form, id, createdAt);
      if insertError.None? {
        rows := rows + [row];
        o := Redirect("/");
      } else {
        o := Stay;
      }
    }
  }

  /** A newly created row that is newer than every existing row, and that the
      current term (if any) matches, comes first in the next feed. */
  lemma {:induction false} NewPostLeadsFeed(table: seq<Opportunity>, row: Opportunity, query: string)
    requires PlainTerm(query)
    requires forall x :: x in table ==> x.createdAt < row.createdAt
    requires query == "" || Matches(row, query)
    ensures GetOpportunities(table + [row], query, Rows) != []
    ensures GetOpportunities(table + [row], query, Rows)[0] == row
  {
    var t := table + [row];
    var r := GetOpportunities(t, query, Rows);
    assert row in t;
    assert multiset(t)[row] > 0;
    assert multiset(r)[row] > 0;
    assert row in r;
    var k :| 0 <= k < |r| && r[k] == row;
    assert r[0].createdAt >= row.createdAt;
    assert multiset(r)[r[0]] > 0;
  }

  /** A post made while signed in with a successful insert, then a feed read:
      the new row is shown first when it is the newest and the term is empty. */
  method PostThenBrowse(table: OpportunityTable, user: User, form: PostForm, id: nat, createdAt: int)
    returns (o: Outcome, feed: seq<Opportunity>)
    requires forall x :: x in table.rows ==> x.createdAt < createdAt
    modifies table
    ensures o == Redirect("/")
    ensures feed != [] && feed[0] == NewRow(form, id, createdAt)
  {
    o := table.CreatePost(Some(user), form, id, createdAt, None);
    feed := GetOpportunities(table.rows, "", Rows);
    NewPostLeadsFeed(old(table.rows), NewRow(form, id, createdAt), "");
  }
}
