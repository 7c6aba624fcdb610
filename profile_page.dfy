/** The profile page (profile/page.tsx): the comma-list normaliser, the
    render-time guard with its prefilled form, and the server action
    `updateProfile`, which upserts one profile keyed by the user's id. */
module ProfilePage {
  import opened Web
  import opened Text

  /** A row of the `profiles` table. Absent values are null columns. */
  datatype Profile = Profile(
    id: UserId,
    fullName: Option<string>,
    skills: Option<seq<string>>,
    interests: Option<seq<string>>,
    email: Option<string>,
    updatedAt: string)

  /** `.map(s => s.trim())`. */
  function TrimAll(parts: seq<string>): (r: seq<string>)
    ensures |r| == |parts|
    ensures forall i :: 0 <= i < |parts| ==> r[i] == Trim(parts[i])
  {
    if parts == [] then [] else [Trim(parts[0])] + TrimAll(parts[1..])
  }

  /** `.filter(s => s.length > 0)`: the non-empty parts, in order. */
  function DropEmpty(parts: seq<string>): (r: seq<string>)
    ensures forall x :: x in r <==> x in parts && x != ""
    ensures |r| <= |parts|
  {
    if parts == [] then []
    else
      var rest := DropEmpty(parts[1..]);
      assert parts == [parts[0]] + parts[1..];
      if |parts[0]| > 0 then [parts[0]] + rest else rest
  }

  /** `.filter` keeps every non-empty part as often as it occurs; with
      `DropEmptyAppend` this also fixes their order. */
  lemma {:induction false} DropEmptyMultiset(parts: seq<string>)
    ensures forall x :: multiset(DropEmpty(parts))[x] == if x != "" then multiset(parts)[x] else 0
  {
    if parts != [] {
      DropEmptyMultiset(parts[1..]);
      assert parts == [parts[0]] + parts[1..];
    }
  }

  /** What a saved list element looks like: non-empty, trimmed, comma-free. */
  predicate CleanItem(x: string) {
    x != "" && IsTrimmed(x) && ',' !in x
  }

  /** The normaliser of lines 32-33: split on `,`, trim every part, drop the
      empty ones. Every element is clean. */
  function Normalise(s: string): (r: seq<string>)
    ensures forall i :: 0 <= i < |r| ==> CleanItem(r[i])
  {
    var parts := Split(s, ',');
    var trimmed := TrimAll(parts);
    var r := DropEmpty(trimmed);
    forall i | 0 <= i < |r| ensures CleanItem(r[i]) {
      assert r[i] in trimmed;
      var k :| 0 <= k < |trimmed| && trimmed[k] == r[i];
      assert trimmed[k] == Trim(parts[k]);
      assert forall c :: c in Trim(parts[k]) ==> c in parts[k] by {
        TrimInside(parts[k]);
      }
    }
    r
  }

  /** Trimming only removes characters. */
  lemma TrimInside(s: string)
    ensures forall c :: c in Trim(s) ==> c in s
  {
    var t := TrimStart(s);
    assert Trim(s) == TrimEnd(t);
    assert forall c :: c in TrimEnd(t) ==> c in t;
    assert forall c :: c in t ==> c in s;
  }

  lemma {:induction false} TrimAllAppend(a: seq<string>, b: seq<string>)
    ensures TrimAll(a + b) == TrimAll(a) + TrimAll(b)
  {
    if a == [] {
      assert a + b == b;
    } else {
      assert (a + b)[1..] == a[1..] + b;
      TrimAllAppend(a[1..], b);
    }
  }

  lemma {:induction false} DropEmptyAppend(a: seq<string>, b: seq<string>)
    ensures DropEmpty(a + b) == DropEmpty(a) + DropEmpty(b)
  {
    if a != [] {
      var ab := a + b;
      assert ab[0] == a[0];
      assert ab[1..] == a[1..] + b;
      DropEmptyAppend(a[1..], b);
      if |a[0]| > 0 {
        calc {
          DropEmpty(ab);
          [a[0]] + DropEmpty(a[1..] + b);
          [a[0]] + (DropEmpty(a[1..]) + DropEmpty(b));
          ([a[0]] + DropEmpty(a[1..])) + DropEmpty(b);
          DropEmpty(a) + DropEmpty(b);
        }
      } else {
        assert DropEmpty(ab) == DropEmpty(a[1..] + b);
        assert DropEmpty(a) == DropEmpty(a[1..]);
      }
    } else {
      assert a + b == b;
    }
  }

  /** The normaliser works segment by segment: the parts on either side of a
      comma are normalised independently and keep their order. */
  lemma NormaliseAround(a: string, b: string)
    ensures Normalise(a + [','] + b) == Normalise(a) + Normalise(b)
  {
    SplitAround(a, b, ',');
    TrimAllAppend(Split(a, ','), Split(b, ','));
    DropEmptyAppend(TrimAll(Split(a, ',')), TrimAll(Split(b, ',')));
  }

  /** A comma-free segment normalises to its trim, or to nothing if that is empty. */
  lemma NormaliseSegment(s: string)
    requires ',' !in s
    ensures Normalise(s) == if Trim(s) == "" then [] else [Trim(s)]
  {
    SplitNoSep(s, ',');
  }

  /** A clean element, possibly after one space, normalises to itself alone. */
  lemma NormaliseCleanSegment(x: string, padded: bool)
    requires CleanItem(x)
    ensures Normalise((if padded then " " else "") + x) == [x]
  {
    var s := (if padded then " " else "") + x;
    if padded {
      TrimSpaceThen(x);
    } else {
      assert s == x;
    }
    assert ',' !in s;
    NormaliseSegment(s);
  }

  /** Regrouping `pad + x + ", " + rest` around its comma. */
  lemma CommaRegroup(pad: string, x: string, rest: string)
    ensures pad + (x + ", " + rest) == (pad + x) + [','] + (" " + rest)
  {
    assert ", " + rest == [','] + (" " + rest);
  }

  /** Re-saving the prefilled text gives the list back: joining clean elements
      with ", " (the form's prefill) and normalising is the identity, with or
      without the leading space that follows each separator. */
  lemma {:induction false} NormaliseJoinPadded(xs: seq<string>, padded: bool)
    requires forall i :: 0 <= i < |xs| ==> CleanItem(xs[i])
    ensures Normalise((if padded then " " else "") + Join(xs, ", ")) == xs
  {
    var pad := if padded then " " else "";
    if xs == [] {
      assert pad + Join(xs, ", ") == pad;
      NormaliseSegment(pad);
      TrimAllSpace(pad);
    } else if |xs| == 1 {
      assert Join(xs, ", ") == xs[0];
      NormaliseCleanSegment(xs[0], padded);
    } else {
      NormaliseJoinPadded(xs[1..], true);
      NormaliseJoinStep(pad, xs, padded);
    }
  }

  /** The step of `NormaliseJoinPadded`: a clean first element, then a comma and
      a padded tail that already normalises to the remaining elements. */
  lemma NormaliseJoinStep(pad: string, xs: seq<string>, padded: bool)
    requires |xs| >= 2 && CleanItem(xs[0])
    requires pad == if padded then " " else ""
    requires Normalise(" " + Join(xs[1..], ", ")) == xs[1..]
    ensures Normalise(pad + Join(xs, ", ")) == xs
  {
    var x, rest := xs[0], xs[1..];
    var joined := Join(rest, ", ");
    var head, tail := pad + x, " " + joined;
    JoinCons(xs, ", ");
    CommaRegroup(pad, x, joined);
    NormaliseAround(head, tail);
    NormaliseCleanSegment(x, padded);
    HeadCons(xs);
  }

  /** The round trip of lines 96/112 against lines 32-33. */
  lemma NormaliseJoin(xs: seq<string>)
    requires forall i :: 0 <= i < |xs| ==> CleanItem(xs[i])
    ensures Normalise(Join(xs, ", ")) == xs
  {
    NormaliseJoinPadded(xs, false);
    assert "" + Join(xs, ", ") == Join(xs, ", ");
  }

  /** The comment's own example: "React, Node" gives ["React", "Node"]. */
  lemma NormaliseReactNode()
    ensures Normalise("React, Node") == ["React", "Node"]
  {
    var xs := ["React", "Node"];
    assert CleanItem("React") && CleanItem("Node");
    assert Join(xs, ", ") == "React, Node";
    NormaliseJoin(xs);
  }

  lemma NormaliseGo(s: string)
    requires s == " Go "
    ensures Normalise(s) == ["Go"]
  {
    assert s == " " + "Go" + " ";
    TrimSpaceAround("Go");
    NormaliseSegment(s);
  }

  lemma NormaliseBlank()
    ensures Normalise("  ") == []
  {
    NormaliseSegment("  ");
    TrimAllSpace("  ");
  }

  /** Whitespace-only segments are dropped and the others keep their order.
      (The input is a parameter so that the solver reasons through the lemmas
      above instead of unfolding the definitions on the literal.) */
  lemma NormaliseDropsBlank(s: string)
    requires s == "React, Node,  , Go "
    ensures Normalise(s) == ["React", "Node", "Go"]
  {
    var a, b, c := "React, Node", "  ", " Go ";
    assert s == a + [','] + (b + [','] + c);
    NormaliseReactNode();
    NormaliseBlank();
    NormaliseGo(c);
    NormaliseAround(b, c);
    NormaliseAround(a, b + [','] + c);
  }

  /** `(formData.get(name) as string)?.split(...)...`: a missing field gives an
      absent list (the optional chain stops), a present one its normal form. */
  function NormaliseField(field: Option<string>): (r: Option<seq<string>>)
    ensures r.None? <==> field.None?
    ensures r.Some? ==> forall i :: 0 <= i < |r.value| ==> CleanItem(r.value[i])
    ensures field.Some? ==> r == Some(Normalise(field.value))
  {
    match field
    case None => None
    case Some(s) => Some(Normalise(s))
  }

  /** The record `updateProfile` upserts, at time `now`. */
  function BuildProfile(user: User, form: FormData, now: string): (p: Profile)
    ensures p.id == user.id && p.email == user.email && p.updatedAt == now
    ensures p.fullName == FormGet(form, "fullName")
    ensures p.skills == NormaliseField(FormGet(form, "skills"))
    ensures p.interests == NormaliseField(FormGet(form, "interests"))
  {
    Profile(
      user.id,
      FormGet(form, "fullName"),
      NormaliseField(FormGet(form, "skills")),
      NormaliseField(FormGet(form, "interests")),
      user.email,
      now)
  }

  /** Insert-or-overwrite keyed by `id`: only the entry for `p.id` changes, and
      it becomes `p`. */
  function Upsert(rows: map<UserId, Profile>, p: Profile): (r: map<UserId, Profile>)
    ensures r.Keys == rows.Keys + {p.id}
    ensures p.id in r && r[p.id] == p
    ensures forall k :: k in rows && k != p.id ==> r[k] == rows[k]
  {
    rows[p.id := p]
  }

  /** Saving the same form twice leaves what saving it once (at the later time)
      does; and the two saves' records differ only in `updatedAt`. */
  lemma SaveTwice(rows: map<UserId, Profile>, user: User, form: FormData, t1: string, t2: string)
    ensures Upsert(Upsert(rows, BuildProfile(user, form, t1)), BuildProfile(user, form, t2))
         == Upsert(rows, BuildProfile(user, form, t2))
    ensures BuildProfile(user, form, t1).(updatedAt := t2) == BuildProfile(user, form, t2)
  {
  }

  /** The prefilled form: `profile?.full_name || ''`, and each list joined with
      ", " (or '' when the profile or the list is absent). */
  function Prefill(stored: Option<Profile>): (form: FormData)
    ensures form.Keys == {"fullName", "skills", "interests"}
    ensures stored.None? ==> form["fullName"] == "" && form["skills"] == "" && form["interests"] == ""
    ensures stored.Some? ==> form["fullName"] == stored.value.fullName.GetOr("")
    ensures stored.Some? ==> form["skills"] == Join(stored.value.skills.GetOr([]), ", ")
    ensures stored.Some? ==> form["interests"] == Join(stored.value.interests.GetOr([]), ", ")
  {
    match stored
    case None => map["fullName" := "", "skills" := "", "interests" := ""]
    case Some(p) =>
      map["fullName" := p.fullName.GetOr(""),
          "skills" := Join(p.skills.GetOr([]), ", "),
          "interests" := Join(p.interests.GetOr([]), ", ")]
  }

  /** What the profile page shows: a guest is sent to `/login`; a user gets the
      form prefilled from their row. A failed or empty read shows blank fields. */
  datatype ProfileView = LoginRedirect | Editor(email: Option<string>, defaults: FormData)

  /** The page render of lines 9-21 and the prefill. `readFailed` is the store's
      reply to the `.single()` read. */
  function RenderProfilePage(user: Option<User>, rows: map<UserId, Profile>, readFailed: bool): (v: ProfileView)
    ensures user.None? <==> v == LoginRedirect
    ensures user.Some? ==> v.Editor? && v.email == user.value.email
    ensures user.Some? && !readFailed && user.value.id in rows ==>
      v.defaults == Prefill(Some(rows[user.value.id]))
    ensures user.Some? && (readFailed || user.value.id !in rows) ==>
      v.defaults == Prefill(None)
  {
    match user
    case None => LoginRedirect
    case Some(u) =>
      var stored := if !readFailed && u.id in rows then Some(rows[u.id]) else None;
      Editor(u.email, Prefill(stored))
  }

  predicate CleanList(xs: Option<seq<string>>) {
    xs.Some? ==> forall i :: 0 <= i < |xs.value| ==> CleanItem(xs.value[i])
  }

  /** Submitting the prefilled form unchanged keeps the stored lists (a null
      list comes back as the empty list). With `RenderProfilePage`, whose
      defaults are `Prefill(Some(rows[user.id]))`, this is the re-save of lines
      96 and 112 through lines 32-33. */
  lemma ResaveKeepsLists(user: User, stored: Profile, now: string)
    requires CleanList(stored.skills) && CleanList(stored.interests)
    ensures BuildProfile(user, Prefill(Some(stored)), now).skills == Some(stored.skills.GetOr([]))
    ensures BuildProfile(user, Prefill(Some(stored)), now).interests == Some(stored.interests.GetOr([]))
  {
    var form := Prefill(Some(stored));
    FieldRoundTrip(form, "skills", stored.skills.GetOr([]));
    FieldRoundTrip(form, "interests", stored.interests.GetOr([]));
  }

  /** A form field holding a ", "-joined clean list normalises back to it. */
  lemma FieldRoundTrip(form: FormData, name: string, xs: seq<string>)
    requires name in form && form[name] == Join(xs, ", ")
    requires forall i :: 0 <= i < |xs| ==> CleanItem(xs[i])
    ensures NormaliseField(FormGet(form, name)) == Some(xs)
  {
    NormaliseJoin(xs);
  }

  /** The `profiles` table of the store. */
  class ProfileTable {
    var rows: map<UserId, Profile>

    constructor (initial: map<UserId, Profile>)
      ensures rows == initial
    {
      rows := initial;
    }

    /** `updateProfile`: re-check the user, upsert the profile keyed by the
        user's id, then redirect to `/profile` whether or not the upsert
        reported an error. A failed upsert writes nothing. */
    method UpdateProfile(user: Option<User>, form: FormData, now: string,
                         upsertError: Option<string>) returns (o: Outcome)
      modifies this
      ensures user.None? ==> o == Abort && rows == old(rows)
      ensures user.Some? ==> o == Redirect("/profile")
      ensures user.Some? && upsertError.None? ==>
        rows == Upsert(old(rows), BuildProfile(user.value, form, now))
      ensures user.Some? && upsertError.Some? ==> rows == old(rows)
      ensures forall k :: k in old(rows) && (user.None? || k != user.value.id) ==>
        k in rows && rows[k] == old(rows)[k]
    {
      if user.None? {
        return Abort;
      }
      var profile := BuildProfile(user.value, form, now);
      if upsertError.None? {
        rows := rows[profile.id := profile];
      }
      o := Redirect("/profile");
    }
  }
}
