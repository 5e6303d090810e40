/**
 * The award view: issuing a badge to a comma-separated list of emails without
 * duplicating existing awards, and mailing every award in the resulting list;
 * and the claim view, listing the awards of one email address.
 */
module Views {
  import opened Wrappers
  import opened Text
  import opened Query
  import opened Models

  /** The part of an HTTP request the award view reads: its method and, for a
      POST, the `emails` form field if it was sent. */
  datatype Request = Get | Post(emails: Option<string>)

  /** How `get_context_data` ends. `Redirect` is the `HttpResponseRedirect` object it
      returns in place of a context; `ShowForm` is the context with the (unbound or
      invalid) form; `ServerError` is an exception escaping it. */
  datatype Response =
    | Redirect(location: string)
    | ShowForm
    | ServerError

  /** `AwardBadgeForm(request.POST)`: the form is valid when the required `emails`
      field is present and not empty, and then gives the field's text. */
  function CleanedEmails(request: Request): Option<string>
  {
    if request.Post? && request.emails.Some? && request.emails.value != "" then request.emails else None
  }

  /** `emails.split(',')`: nothing is trimmed, empty pieces are kept. */
  function EmailList(field: string): seq<string>
  {
    Split(field, ',')
  }

  /** The query `Award.objects.filter(badge=badge, email__in=emails)`. */
  function ForBadgeAndEmails(badge: BadgeId, emails: seq<string>): AwardRow -> bool
  {
    (a: AwardRow) => a.badge == badge && a.email in emails
  }

  /** The query `Award.objects.filter(email=email)`. */
  function HasEmail(email: string): AwardRow -> bool
  {
    (a: AwardRow) => a.email == email
  }

  function EmailsOf(awards: seq<AwardRow>): set<string>
  {
    set a | a in awards :: a.email
  }

  /** Some award of `badge` to `email` is among `awards`. */
  ghost predicate HasAward(awards: seq<AwardRow>, badge: BadgeId, email: string)
  {
    exists a :: a in awards && a.badge == badge && a.email == email
  }

  /** `set(emails) - set(award.email for award in awards)`, the awards being those the
      query found: exactly the requested emails that hold no award of `badge`. */
  function MissingEmails(rows: seq<AwardRow>, badge: BadgeId, emails: seq<string>): (missing: set<string>)
    ensures forall e :: e in missing <==> e in emails && !HasAward(rows, badge, e)
  {
    var found := Filter(rows, ForBadgeAndEmails(badge, emails));
    assert forall e :: e in emails && HasAward(rows, badge, e) ==> e in EmailsOf(found) by {
      forall e | e in emails && HasAward(rows, badge, e)
        ensures e in EmailsOf(found)
      {
        var a :| a in rows && a.badge == badge && a.email == e;
        assert a in found;
      }
    }
    (set e | e in emails) - EmailsOf(found)
  }

  /** Awards created by one request: all of `badge`, each to a different one of the
      `missing` emails, each with a slug `get_new_slug` can produce. */
  ghost predicate IssuedOnce(created: seq<AwardRow>, badge: BadgeId, missing: set<string>)
  {
    && (forall i :: 0 <= i < |created| ==>
          created[i].badge == badge && created[i].email in missing && IsAwardSlug(created[i].slug))
    && (forall i, j :: 0 <= i < j < |created| ==> created[i].email != created[j].email)
  }

  /** One more award to a still unserved email keeps the awards distinct. */
  lemma IssueOneMore(created: seq<AwardRow>, row: AwardRow, badge: BadgeId, missing: set<string>, todo: set<string>)
    requires IssuedOnce(created, badge, missing)
    requires EmailsOf(created) == missing - todo && todo <= missing
    requires row.badge == badge && row.email in todo && IsAwardSlug(row.slug)
    ensures IssuedOnce(created + [row], badge, missing)
    ensures EmailsOf(created + [row]) == missing - (todo - {row.email})
  {
    assert forall i :: 0 <= i < |created| ==> created[i].email in EmailsOf(created);
    var more := created + [row];
    assert forall a :: a in more <==> a in created || a == row;
    assert EmailsOf(more) == EmailsOf(created) + {row.email};
  }

  /** With nothing missing, a request issues nothing. */
  lemma NothingToIssue(created: seq<AwardRow>, badge: BadgeId)
    requires IssuedOnce(created, badge, {})
    ensures created == []
  {
    if created != [] {
      FirstIssued(created, badge, {});
      assert false;
    }
  }

  lemma FirstIssued(created: seq<AwardRow>, badge: BadgeId, missing: set<string>)
    requires IssuedOnce(created, badge, missing) && created != []
    ensures created[0].email in missing
  {
  }

  /** One mail per award in the list, in list order, to the award's email. */
  predicate Notified(recipients: seq<string>, awards: seq<AwardRow>)
  {
    |recipients| == |awards| && forall i :: 0 <= i < |awards| ==> recipients[i] == awards[i].email
  }

  /** The first clock reading the `i`-th new award of a request could use: the one
      after the reading that gave the previous new award its slug. */
  function Start(stamps: seq<nat>, i: nat): nat
    requires i <= |stamps|
  {
    if i == 0 then 0 else stamps[i - 1] + 1
  }

  /** The readings new awards took their slugs from come in order, within the clock. */
  ghost predicate StampsInOrder(stamps: seq<nat>, clock: seq<string>)
  {
    && (forall i :: 0 <= i < |stamps| ==> stamps[i] < |clock|)
    && (forall i, j :: 0 <= i < j < |stamps| ==> stamps[i] < stamps[j])
  }

  /** The `i`-th new award's slug is the candidate of reading `stamps[i]`. */
  ghost predicate SlugsFromStamps(md5: string -> Md5Digest, clock: seq<string>, created: seq<AwardRow>, stamps: seq<nat>)
    requires |stamps| == |created| && StampsInOrder(stamps, clock)
  {
    forall i :: 0 <= i < |created| ==> created[i].slug == SlugCandidate(md5, clock[stamps[i]], created[i].email)
  }

  /** The slugs taken when the `i`-th new award of a request was saved: those of the
      table `before` the request and those of the awards the request had created by then. */
  ghost function Taken(before: seq<AwardRow>, created: seq<AwardRow>, i: nat): set<string>
    requires i <= |created|
  {
    if i == 0 then SlugsOf(before) else Taken(before, created, i - 1) + {created[i - 1].slug}
  }

  lemma SlugsAppend(rows: seq<AwardRow>, row: AwardRow)
    ensures SlugsOf(rows + [row]) == SlugsOf(rows) + {row.slug}
  {
    assert forall a :: a in rows + [row] <==> a in rows || a == row;
  }

  /** Awards created later do not change what was taken earlier. */
  lemma {:induction false} TakenExtend(before: seq<AwardRow>, created: seq<AwardRow>, row: AwardRow, i: nat)
    requires i <= |created|
    ensures Taken(before, created + [row], i) == Taken(before, created, i)
  {
    if i > 0 {
      TakenExtend(before, created, row, i - 1);
      assert (created + [row])[i - 1] == created[i - 1];
    }
  }

  /** After all the new awards, the taken slugs are those of the whole table. */
  lemma {:induction false} TakenAll(before: seq<AwardRow>, created: seq<AwardRow>)
    ensures Taken(before, created, |created|) == SlugsOf(before + created)
  {
    if created != [] {
      var n := |created| - 1;
      var rest := created[..n];
      assert created == rest + [created[n]];
      TakenAll(before, rest);
      TakenExtend(before, rest, created[n], n);
      SlugsAppend(before + rest, created[n]);
      assert before + created == (before + rest) + [created[n]];
    }
  }

  /** Every reading skipped before the `i`-th new award gave a slug that was taken
      when it was tried. */
  ghost predicate SkippedTaken(md5: string -> Md5Digest, clock: seq<string>, created: seq<AwardRow>,
                               stamps: seq<nat>, before: seq<AwardRow>)
    requires |stamps| == |created| && StampsInOrder(stamps, clock)
  {
    forall i, k {:trigger Taken(before, created, i), clock[k]} ::
      0 <= i < |created| && Start(stamps, i) <= k < stamps[i] ==>
        SlugCandidate(md5, clock[k], created[i].email) in Taken(before, created, i)
  }

  /** Each new award's slug was free when it was saved. */
  ghost predicate FreeInTurn(created: seq<AwardRow>, before: seq<AwardRow>)
  {
    forall i {:trigger Taken(before, created, i)} ::
      0 <= i < |created| ==> created[i].slug !in Taken(before, created, i)
  }

  /** How a request that started on the table `before` used the clock readings: the
      `i`-th new award took its slug, free at that moment, from reading `stamps[i]`,
      and every reading it skipped before that gave a slug taken at that moment. The
      readings used are those before `Start(stamps, |stamps|)`. */
  ghost predicate ClockAccounted(md5: string -> Md5Digest, clock: seq<string>, created: seq<AwardRow>,
                                 stamps: seq<nat>, before: seq<AwardRow>)
  {
    && |stamps| == |created|
    && StampsInOrder(stamps, clock)
    && SlugsFromStamps(md5, clock, created, stamps)
    && FreeInTurn(created, before)
    && SkippedTaken(md5, clock, created, stamps, before)
  }

  /** The email `e` gets, from every clock reading from `from` on, a slug the table
      `rows` already holds. */
  ghost predicate Stuck(md5: string -> Md5Digest, clock: seq<string>, from: nat, e: string, rows: seq<AwardRow>)
  {
    forall k :: from <= k < |clock| ==> SlugCandidate(md5, clock[k], e) in SlugsOf(rows)
  }

  /** Some missing email still without an award is stuck from reading `from` on. */
  ghost predicate RanOut(md5: string -> Md5Digest, clock: seq<string>, from: nat, missing: set<string>,
                         created: seq<AwardRow>, rows: seq<AwardRow>)
  {
    exists e :: e in missing && e !in EmailsOf(created) && Stuck(md5, clock, from, e, rows)
  }

  /** The accounting is unique: each stamp is the first reading, from the one after
      the previous stamp, whose slug was free, so the readings a request used are
      fixed by the awards it created. */
  lemma {:induction false} StampsUnique(md5: string -> Md5Digest, clock: seq<string>, created: seq<AwardRow>,
                                        before: seq<AwardRow>, stamps1: seq<nat>, stamps2: seq<nat>)
    requires ClockAccounted(md5, clock, created, stamps1, before)
    requires ClockAccounted(md5, clock, created, stamps2, before)
    ensures stamps1 == stamps2
  {
    var i := 0;
    while i < |created|
      invariant i <= |created|
      invariant stamps1[..i] == stamps2[..i]
    {
      assert Start(stamps1, i) == Start(stamps2, i) by {
        if i > 0 {
          assert stamps1[i - 1] == stamps1[..i][i - 1] == stamps2[..i][i - 1] == stamps2[i - 1];
        }
      }
      SameStamp(md5, clock, created, before, stamps1, stamps2, i);
      assert stamps1[..i + 1] == stamps1[..i] + [stamps1[i]];
      assert stamps2[..i + 1] == stamps2[..i] + [stamps2[i]];
      i := i + 1;
    }
    assert stamps1 == stamps1[..i] && stamps2 == stamps2[..i];
  }

  /** Two accountings that agree on where the `i`-th award could start agree on its stamp. */
  lemma SameStamp(md5: string -> Md5Digest, clock: seq<string>, created: seq<AwardRow>,
                  before: seq<AwardRow>, stamps1: seq<nat>, stamps2: seq<nat>, i: nat)
    requires ClockAccounted(md5, clock, created, stamps1, before)
    requires ClockAccounted(md5, clock, created, stamps2, before)
    requires i < |created| && Start(stamps1, i) == Start(stamps2, i)
    ensures stamps1[i] == stamps2[i]
  {
    var taken, e := Taken(before, created, i), created[i].email;
    assert SlugCandidate(md5, clock[stamps1[i]], e) !in taken;
    assert SlugCandidate(md5, clock[stamps2[i]], e) !in taken;
    assert forall k :: Start(stamps1, i) <= k < stamps1[i] ==> SlugCandidate(md5, clock[k], e) in taken;
    assert forall k :: Start(stamps2, i) <= k < stamps2[i] ==> SlugCandidate(md5, clock[k], e) in taken;
  }

  /** Appending reading `s`, at or after the first unused reading `t`, keeps the
      readings in order. */
  lemma OrderOneMore(stamps: seq<nat>, clock: seq<string>, t: nat, s: nat)
    requires StampsInOrder(stamps, clock) && t == Start(stamps, |stamps|)
    requires t <= s < |clock|
    ensures StampsInOrder(stamps + [s], clock)
  {
    var stamps' := stamps + [s];
    forall i, j | 0 <= i < j < |stamps'|
      ensures stamps'[i] < stamps'[j]
    {
      if j == |stamps| {
        assert i == |stamps| - 1 || stamps[i] < stamps[|stamps| - 1];
      }
    }
  }

  /** Appending a stamp leaves the earlier starts alone. */
  lemma StartOneMore(stamps: seq<nat>, s: nat)
    ensures forall i :: 0 <= i <= |stamps| ==> Start(stamps + [s], i) == Start(stamps, i)
    ensures Start(stamps + [s], |stamps| + 1) == s + 1
  {
  }

  /** One more award whose slug came from reading `s`, after the readings from `t` on
      gave slugs taken at that moment, keeps the skipped readings accounted for. */
  lemma SkippedOneMore(md5: string -> Md5Digest, clock: seq<string>, created: seq<AwardRow>, stamps: seq<nat>,
                       before: seq<AwardRow>, row: AwardRow, t: nat, s: nat)
    requires |stamps| == |created| && StampsInOrder(stamps, clock) && StampsInOrder(stamps + [s], clock)
    requires SkippedTaken(md5, clock, created, stamps, before)
    requires t == Start(stamps, |stamps|) && s < |clock|
    requires forall k :: t <= k < s ==> SlugCandidate(md5, clock[k], row.email) in SlugsOf(before + created)
    ensures SkippedTaken(md5, clock, created + [row], stamps + [s], before)
  {
    var stamps', created' := stamps + [s], created + [row];
    StartOneMore(stamps, s);
    TakenAll(before, created);
    forall i, k | 0 <= i < |created'| && Start(stamps', i) <= k < stamps'[i]
      ensures SlugCandidate(md5, clock[k], created'[i].email) in Taken(before, created', i)
    {
      TakenExtend(before, created, row, i);
      if i < |created| {
        assert created'[i] == created[i] && stamps'[i] == stamps[i];
      }
    }
  }

  /** One more award, whose slug was free and came from reading `s` after the readings
      from the first unused one `t` on gave taken slugs, keeps the clock accounted for. */
  lemma AccountOneMore(md5: string -> Md5Digest, clock: seq<string>, created: seq<AwardRow>, stamps: seq<nat>,
                       before: seq<AwardRow>, row: AwardRow, t: nat, s: nat)
    requires ClockAccounted(md5, clock, created, stamps, before)
    requires t == Start(stamps, |stamps|) && t <= s < |clock|
    requires row.slug == SlugCandidate(md5, clock[s], row.email) && row.slug !in SlugsOf(before + created)
    requires forall k :: t <= k < s ==> SlugCandidate(md5, clock[k], row.email) in SlugsOf(before + created)
    ensures ClockAccounted(md5, clock, created + [row], stamps + [s], before)
    ensures Start(stamps + [s], |stamps| + 1) == s + 1
  {
    OrderOneMore(stamps, clock, t, s);
    StartOneMore(stamps, s);
    SkippedOneMore(md5, clock, created, stamps, before, row, t, s);
    FreeOneMore(created, before, row);
    var stamps', created' := stamps + [s], created + [row];
    forall i | 0 <= i < |created'|
      ensures created'[i].slug == SlugCandidate(md5, clock[stamps'[i]], created'[i].email)
    {
      if i < |created| {
        assert created'[i] == created[i] && stamps'[i] == stamps[i];
      }
    }
  }

  /** One more award whose slug the whole table did not hold keeps every slug free in turn. */
  lemma FreeOneMore(created: seq<AwardRow>, before: seq<AwardRow>, row: AwardRow)
    requires FreeInTurn(created, before) && row.slug !in SlugsOf(before + created)
    ensures FreeInTurn(created + [row], before)
  {
    var created' := created + [row];
    TakenAll(before, created);
    forall i | 0 <= i < |created'|
      ensures created'[i].slug !in Taken(before, created', i)
    {
      TakenExtend(before, created, row, i);
      if i < |created| {
        assert created'[i] == created[i];
      }
    }
  }

  /** The readings `clock[t..]` renumbered from `t`. */
  lemma ShiftReadings(md5: string -> Md5Digest, clock: seq<string>, t: nat, ticks: nat, email: string,
                      taken: set<string>)
    requires t <= |clock| && 1 <= ticks <= |clock| - t
    requires forall k :: 0 <= k < ticks - 1 ==> SlugCandidate(md5, clock[t..][k], email) in taken
    ensures clock[t + ticks - 1] == clock[t..][ticks - 1]
    ensures forall k :: t <= k < t + ticks - 1 ==> SlugCandidate(md5, clock[k], email) in taken
  {
    var rest := clock[t..];
    forall k | t <= k < t + ticks - 1
      ensures SlugCandidate(md5, clock[k], email) in taken
    {
      assert clock[k] == rest[k - t];
    }
  }

  /** What a valid POST for `emails` does to the award table `before`, leaving it
      `after`: the awards it creates are appended, one per missing email; the list
      is the awards the query found followed by the new ones; and either every
      missing email got its award and the whole list was mailed before the redirect
      to `/` was returned, or a save failed, no mail went out and the view raised. A save fails
      only when, for an email still unserved, every clock reading the request had
      not yet used gives a slug already taken. */
  ghost predicate Served(before: seq<AwardRow>, after: seq<AwardRow>, badge: BadgeId, emails: seq<string>,
                         md5: string -> Md5Digest, clock: seq<string>,
                         response: Response, awards: seq<AwardRow>, recipients: seq<string>)
  {
    && Issued(before, after, badge, emails, response, awards, recipients)
    && ClockUsed(before, after, badge, emails, md5, clock, response)
  }

  /** The awards part of `Served`. */
  ghost predicate Issued(before: seq<AwardRow>, after: seq<AwardRow>, badge: BadgeId, emails: seq<string>,
                         response: Response, awards: seq<AwardRow>, recipients: seq<string>)
  {
    && |before| <= |after| && after[..|before|] == before
    && var missing := MissingEmails(before, badge, emails);
       var created := after[|before|..];
       && IssuedOnce(created, badge, missing)
       && awards == Filter(before, ForBadgeAndEmails(badge, emails)) + created
       && (response == Redirect("/") || response == ServerError)
       && (response == Redirect("/") ==> EmailsOf(created) == missing && Notified(recipients, awards))
       && (response == ServerError ==> |created| < |missing| && recipients == [])
  }

  /** The clock part of `Served`: the readings are accounted for, and a failure
      means some unserved email found every unused reading's slug taken. */
  ghost predicate ClockUsed(before: seq<AwardRow>, after: seq<AwardRow>, badge: BadgeId, emails: seq<string>,
                            md5: string -> Md5Digest, clock: seq<string>, response: Response)
  {
    && |before| <= |after|
    && var created := after[|before|..];
       exists stamps :: ClockAccounted(md5, clock, created, stamps, before) &&
         (response == ServerError ==>
            RanOut(md5, clock, Start(stamps, |stamps|), MissingEmails(before, badge, emails), created, after))
  }

  /** `AwardBadgeView.get_context_data` for `badge`. On a valid POST it finds the
      awards of `badge` to the listed emails, creates one for each listed email that
      has none, mails every award in the list (old and new) and returns a redirect to `/`.
      `clock` holds the readings `datetime.now()` gives during the request. */
  method AwardBadge(store: AwardStore, badge: Badge, request: Request, clock: seq<string>, md5: string -> Md5Digest)
    returns (response: Response, awards: seq<AwardRow>, recipients: seq<string>)
    requires store.Valid()
    modifies store
    ensures store.Valid()
    ensures |old(store.rows)| <= |store.rows| && store.rows[..|old(store.rows)|] == old(store.rows)
    ensures CleanedEmails(request).None? ==>
              response == ShowForm && store.rows == old(store.rows) && awards == [] && recipients == []
    ensures CleanedEmails(request).Some? ==>
              Served(old(store.rows), store.rows, badge.id, EmailList(CleanedEmails(request).value),
                     md5, clock, response, awards, recipients)
  {
    var field := CleanedEmails(request);
    if field.None? {
      return ShowForm, [], [];
    }
    var emails := EmailList(field.value);
    var existing := Filter(store.rows, ForBadgeAndEmails(badge.id, emails));
    var missing := (set e | e in emails) - EmailsOf(existing);
    assert missing == MissingEmails(store.rows, badge.id, emails);
    var created, complete;
    ghost var stamps, stuck;
    created, complete, stamps, stuck := CreateAwards(store, badge.id, missing, clock, md5);
    assert store.rows[|old(store.rows)|..] == created;
    assert ClockAccounted(md5, clock, created, stamps, old(store.rows));
    awards := existing + created;
    if !complete {
      return ServerError, awards, [];
    }
    recipients := SendMails(awards);
    response := Redirect("/");
  }

  /** The loop `for email in missing: Award.objects.create(badge=badge, email=email)`.
      It stops with `complete` false when a save fails for want of a free slug. */
  method CreateAwards(store: AwardStore, badge: BadgeId, missing: set<string>, clock: seq<string>, md5: string -> Md5Digest)
    returns (created: seq<AwardRow>, complete: bool, ghost stamps: seq<nat>, ghost stuck: string)
    requires store.Valid()
    modifies store
    ensures store.Valid()
    ensures store.rows == old(store.rows) + created
    ensures IssuedOnce(created, badge, missing)
    ensures ClockAccounted(md5, clock, created, stamps, old(store.rows))
    ensures complete ==> EmailsOf(created) == missing
    ensures !complete ==> |created| < |missing|
    ensures !complete ==>
              stuck in missing && stuck !in EmailsOf(created) &&
              Stuck(md5, clock, Start(stamps, |stamps|), stuck, store.rows)
  {
    var todo := missing;
    created, stamps := [], [];
    var t: nat := 0;
    while todo != {}
      invariant store.Valid()
      invariant todo <= missing
      invariant store.rows == old(store.rows) + created
      invariant |created| + |todo| == |missing|
      invariant IssuedOnce(created, badge, missing)
      invariant EmailsOf(created) == missing - todo
      invariant ClockAccounted(md5, clock, created, stamps, old(store.rows))
      invariant t == Start(stamps, |stamps|) && t <= |clock|
      decreases |todo|
    {
      var email :| email in todo;
      var award, ticks := CreateNext(store, badge, email, clock, md5, t, old(store.rows), created, stamps);
      if award.None? {
        return created, false, stamps, email;
      }
      IssueOneMore(created, award.value, badge, missing, todo);
      created := created + [award.value];
      stamps := stamps + [t + ticks - 1];
      todo := todo - {email};
      t := t + ticks;
    }
    return created, true, stamps, "";
  }

  /** One pass of the creation loop: `Award.objects.create` for `email`, given the
      readings from the first unused one `t` on, with the clock kept accounted for. */
  method CreateNext(store: AwardStore, badge: BadgeId, email: string, clock: seq<string>, md5: string -> Md5Digest,
                    t: nat, ghost before: seq<AwardRow>, ghost created: seq<AwardRow>, ghost stamps: seq<nat>)
    returns (award: Option<AwardRow>, ticks: nat)
    requires store.Valid() && store.rows == before + created
    requires ClockAccounted(md5, clock, created, stamps, before)
    requires t == Start(stamps, |stamps|) && t <= |clock|
    modifies store
    ensures store.Valid()
    ensures award.Some? ==>
              && store.rows == old(store.rows) + [award.value]
              && award.value.badge == badge && award.value.email == email && IsAwardSlug(award.value.slug)
              && 1 <= ticks && t + ticks <= |clock|
              && ClockAccounted(md5, clock, created + [award.value], stamps + [t + ticks - 1], before)
              && Start(stamps + [t + ticks - 1], |stamps| + 1) == t + ticks
    ensures award.None? ==>
              && store.rows == old(store.rows)
              && Stuck(md5, clock, t, email, store.rows)
  {
    var rest := clock[t..];
    award, ticks := store.Create(badge, email, rest, md5);
    if award.Some? {
      ShiftReadings(md5, clock, t, ticks, email, SlugsOf(before + created));
      AccountOneMore(md5, clock, created, stamps, before, award.value, t, t + ticks - 1);
    } else {
      forall k | t <= k < |clock|
        ensures SlugCandidate(md5, clock[k], email) in SlugsOf(store.rows)
      {
        assert clock[k] == rest[k - t];
      }
    }
  }

  /** The mailing loop: one `send_mail` per award in the list, to its email. */
  method SendMails(awards: seq<AwardRow>) returns (recipients: seq<string>)
    ensures Notified(recipients, awards)
  {
    recipients := [];
    var i := 0;
    while i < |awards|
      invariant i <= |awards|
      invariant Notified(recipients, awards[..i])
    {
      recipients := recipients + [awards[i].email];
      i := i + 1;
    }
    assert awards[..i] == awards;
  }

  /** After a request that went through, every listed email holds an award of the
      badge, both in the table and in the list that was mailed. */
  lemma {:induction false} EveryEmailAwarded(rows: seq<AwardRow>, created: seq<AwardRow>, badge: BadgeId, emails: seq<string>)
    requires IssuedOnce(created, badge, MissingEmails(rows, badge, emails))
    requires EmailsOf(created) == MissingEmails(rows, badge, emails)
    ensures forall e :: e in emails ==> HasAward(Filter(rows, ForBadgeAndEmails(badge, emails)) + created, badge, e)
    ensures forall e :: e in emails ==> HasAward(rows + created, badge, e)
  {
    var listed := Filter(rows, ForBadgeAndEmails(badge, emails)) + created;
    forall e | e in emails
      ensures HasAward(listed, badge, e) && HasAward(rows + created, badge, e)
    {
      if HasAward(rows, badge, e) {
        var a :| a in rows && a.badge == badge && a.email == e;
        assert a in listed && a in rows + created;
      } else {
        assert e in EmailsOf(created);
        var a :| a in created && a.email == e;
        var i :| 0 <= i < |created| && created[i] == a;
        assert a in listed && a in rows + created;
      }
    }
  }

  /** Issuing is idempotent: once a request has gone through, the same emails find
      nothing missing, and the query finds exactly the awards that were mailed. */
  lemma {:induction false} ReissueFindsEverything(rows: seq<AwardRow>, created: seq<AwardRow>, badge: BadgeId, emails: seq<string>)
    requires IssuedOnce(created, badge, MissingEmails(rows, badge, emails))
    requires EmailsOf(created) == MissingEmails(rows, badge, emails)
    ensures MissingEmails(rows + created, badge, emails) == {}
    ensures Filter(rows + created, ForBadgeAndEmails(badge, emails))
            == Filter(rows, ForBadgeAndEmails(badge, emails)) + created
  {
    EveryEmailAwarded(rows, created, badge, emails);
    var keep := ForBadgeAndEmails(badge, emails);
    FilterAppend(rows, created, keep);
    forall i | 0 <= i < |created|
      ensures keep(created[i])
    {
      assert created[i].email in MissingEmails(rows, badge, emails);
    }
    FilterAll(created, keep);
  }

  /** The same POST twice: the second request creates no award, returns the
      redirect, and mails the same list again. */
  method AwardBadgeTwice(store: AwardStore, badge: Badge, request: Request,
                         clock1: seq<string>, clock2: seq<string>, md5: string -> Md5Digest)
    returns (first: Response, second: Response, ghost between: seq<AwardRow>,
             recipients1: seq<string>, recipients2: seq<string>)
    requires store.Valid()
    requires CleanedEmails(request).Some?
    modifies store
    ensures first == Redirect("/") ==>
              second == Redirect("/") && store.rows == between && recipients2 == recipients1
  {
    ghost var before := store.rows;
    var awards1, awards2;
    first, awards1, recipients1 := AwardBadge(store, badge, request, clock1, md5);
    between := store.rows;
    second, awards2, recipients2 := AwardBadge(store, badge, request, clock2, md5);
    if first == Redirect("/") {
      SecondRequestCreatesNothing(before, between, store.rows, badge.id, EmailList(CleanedEmails(request).value),
                                  md5, clock1, clock2, first, awards1, recipients1, second, awards2, recipients2);
    }
  }

  /** The same valid POST served twice: the second time nothing is missing, so no
      award is created, the same list is found and mailed, and the redirect is returned. */
  lemma {:induction false} SecondRequestCreatesNothing(
    before: seq<AwardRow>, between: seq<AwardRow>, after: seq<AwardRow>, badge: BadgeId, emails: seq<string>,
    md5: string -> Md5Digest, clock1: seq<string>, clock2: seq<string>,
    first: Response, awards1: seq<AwardRow>, recipients1: seq<string>,
    second: Response, awards2: seq<AwardRow>, recipients2: seq<string>)
    requires Served(before, between, badge, emails, md5, clock1, first, awards1, recipients1)
    requires Served(between, after, badge, emails, md5, clock2, second, awards2, recipients2)
    requires first == Redirect("/")
    ensures second == Redirect("/") && after == between
    ensures awards2 == awards1 && recipients2 == recipients1
  {
    AfterRedirect(before, between, badge, emails, awards1, recipients1);
    WhenNothingMissing(between, after, badge, emails, second, awards2, recipients2);
    SameMails(recipients1, recipients2, awards1);
  }

  /** After a request that returned the redirect, nothing is missing any more, and the query
      finds exactly the list that was mailed. */
  lemma AfterRedirect(before: seq<AwardRow>, between: seq<AwardRow>, badge: BadgeId, emails: seq<string>,
                      awards: seq<AwardRow>, recipients: seq<string>)
    requires Issued(before, between, badge, emails, Redirect("/"), awards, recipients)
    ensures MissingEmails(between, badge, emails) == {}
    ensures Filter(between, ForBadgeAndEmails(badge, emails)) == awards && Notified(recipients, awards)
  {
    var created := between[|before|..];
    assert between == before + created;
    ReissueFindsEverything(before, created, badge, emails);
  }

  /** A request that finds nothing missing creates nothing, returns the redirect, and mails
      the list the query finds. */
  lemma WhenNothingMissing(before: seq<AwardRow>, after: seq<AwardRow>, badge: BadgeId, emails: seq<string>,
                           response: Response, awards: seq<AwardRow>, recipients: seq<string>)
    requires Issued(before, after, badge, emails, response, awards, recipients)
    requires MissingEmails(before, badge, emails) == {}
    ensures after == before && response == Redirect("/")
    ensures awards == Filter(before, ForBadgeAndEmails(badge, emails)) && Notified(recipients, awards)
  {
    var created := after[|before|..];
    NothingToIssue(created, badge);
    assert after == before + created;
  }

  /** The mails for a list of awards are determined by the list. */
  lemma SameMails(recipients1: seq<string>, recipients2: seq<string>, awards: seq<AwardRow>)
    requires Notified(recipients1, awards) && Notified(recipients2, awards)
    ensures recipients1 == recipients2
  {
  }

  /** `ClaimBadgesView.get_context_data(email)`: the stored awards whose email is
      exactly `email`, in table order. */
  function ClaimedAwards(store: AwardStore, email: string): (awards: seq<AwardRow>)
    reads store
    ensures forall a :: a in awards <==> a in store.rows && a.email == email
    ensures forall a: AwardRow :: a.email == email ==> multiset(awards)[a] == multiset(store.rows)[a]
  {
    Filter(store.rows, HasEmail(email))
  }
}
