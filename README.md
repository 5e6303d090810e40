# minibadge in Dafny

A model of the core of minibadge, a small Django application that issues
badges to lists of email addresses. It covers three parts:

- **Who may issue a badge.** `Badge.allows_award_to` and the
  `award_badge_link` template tag, which renders a link to the award page
  `badge/<slug>/award` or nothing.
- **How awards are issued and identified.** The award view splits the
  submitted email list and looks up the awards that already exist. It
  creates one award per email that has none, mails every award in the
  resulting list, and returns a redirect to `/` (see "Left out" for what
  the framework does with it). Each new award receives a five-character
  public slug from `Award.get_new_slug`. That slug is the URL-safe base64
  encoding of an MD5 digest, padding stripped and cut to 5 characters, and
  it is retried while it is already taken. The claim view lists the
  awards of one email address.
- **Where badge images are uploaded.** `mk_upload_to` and
  `Badge.get_upload_meta` build paths of the form
  `badge/image_<slug50>_<now>_<rand>.png`.

Modules, one file each:

- `wrappers.dfy`: `Option` and `Result`.
- `text.dfy`: the string operations the source relies on. These are
  `str.split`, joining, `rstrip`, slicing to a length, and decimal and
  zero-padded integer formatting.
- `base64.dfy`: URL-safe base64 from section 5 of RFC 4648, with a decoder
  so that losslessness can be stated.
- `query.dfy`: the ORM's `filter` as an order-preserving filter over a
  table.
- `models.dfy`: users, badges, the authorization check and the upload
  paths. It also holds the awards table as the class `AwardStore`, and
  the award object as the class `Award`, whose `save` assigns the slug in
  place.
- `views.dfy`: the award view (`AwardBadge`) and the claim view.
- `tags.dfy`: the template tag and the award route.

The source's sources of non-determinism are parameters of the model:

- MD5 is a function `md5: string -> Md5Digest` (16 bytes).
- The successive readings of `datetime.now()` are a sequence `clock` of
  their string forms. Each slug attempt consumes one reading.
- `int(time())` is a `nat`.
- `random.randint(0, 1000)` is a `nat` at most 1000.

Facts about the code that shape the model:

- The code mails every award in the list after issuance. This includes
  awards that already existed and repeated rows for the same email.
  `SendMails` returns one recipient per award in the list.
- The code has no uniqueness constraint on the pair (badge, email). Only
  `Award.slug` is unique (`minibadge/models.py:83`). The model enforces
  only the slug constraint, and a table may hold several awards of the
  same badge to the same email.
- `get_new_slug` retries by unbounded recursion. The model bounds the
  retries by the clock readings it is given and reports their exhaustion
  (see "Left out").
- The award view checks only that the user is logged in. It does not call
  `allows_award_to`; that check only decides whether the template shows
  the link.
- Mail is sent with `fail_silently=False`, so a failed send raises in the
  middle of the mailing loop. This is left out together with mail
  transport.

## Model

| member | source | states |
|---|---|---|
| Models.AllowsAwardTo | minibadge/models.py:61-71 | With no user an award is always allowed. An anonymous user is never allowed. A signed-in staff member or superuser is always allowed. Any other signed-in user is allowed exactly when they are the badge's creator. |
| Models.AnonymousBeforeStaffAndCreator | minibadge/models.py:64-67 | The anonymous check takes priority: an anonymous user is refused even when flagged staff and superuser and recorded as the creator. |
| Models.UploadTo | minibadge/models.py:23-32 | The upload path is exactly the template filled in: `base/field_fn_` at the start, then the slug cut to at most 50 characters and `_`, then the decimal digits of `now`, then `_`, four digits whose decimal value is `rand`, `.` and the extension. Each piece starts where the previous one ends, and the length is the sum of the pieces. |
| Models.RandField | minibadge/models.py:23-29 | A random value in 0..1000, formatted with `%04d`, is exactly four digits that read back as that value. |
| Models.BadgeImagePath | minibadge/models.py:47-56 | A badge image path starts with `badge/image_`. For a valid badge slug (at most 50 characters), the whole slug follows untruncated. |
| Models.DigestSlug | minibadge/models.py:98 | The slug of any digest is 5 characters, all from the URL-safe alphabet A-Z a-z 0-9 `-` `_`. |
| Models.EncodeSlug | minibadge/models.py:98 | The source's expression (encode, strip the `=` padding, take 5 characters) gives `DigestSlug` of the digest, the first 5 characters of the unpadded encoding. |
| Models.AwardStore.SlugTaken | minibadge/models.py:100 | The existence query answers true exactly when some stored award uses the slug. |
| Models.AwardStore.Insert | minibadge/models.py:83 | An insert succeeds exactly when the slug is unused. It then appends the row and changes nothing else, so slugs stay unique. |
| Models.AwardStore.Create | minibadge/views.py:41 | Creating an award appends exactly one row, with the given badge and email and a well-formed slug that was unused before. That slug is the candidate of the first clock reading whose candidate was free, and the readings before it all gave taken slugs. If every clock reading gives a taken slug, the table is unchanged. |
| Models.Award.GetNewSlug | minibadge/models.py:95-102 | The slug found is the candidate of the first clock reading whose candidate is not taken. It is 5 URL-safe characters and no stored award uses it. When none is found, every reading's candidate is taken. |
| Models.Award.Save | minibadge/models.py:104-107 | A non-empty slug is kept and no reading is used. An empty slug is replaced by the first free candidate. The row is stored exactly when its slug is unused, otherwise the outcome is an integrity error. Slugs stay unique in the table. |
| Base64.EncodeNoPad | minibadge/models.py:98 | The unpadded encoding of n bytes has (4n+2)/3 characters, all from the URL-safe alphabet. |
| Base64.UrlSafeEncode | minibadge/models.py:98 | The padded encoding has 4 characters per started group of 3 bytes. |
| Base64.DecodeEncode | minibadge/models.py:98 | Decoding the unpadded encoding gives back the bytes, so the encoding loses nothing. |
| Base64.StripPadding | minibadge/models.py:98 | Stripping trailing `=` from the padded encoding leaves exactly the unpadded encoding. |
| Text.Split | minibadge/views.py:36 | Splitting gives at least one piece, no piece contains the separator, and joining the pieces with it restores the string. Nothing is trimmed and empty pieces are kept. |
| Text.SplitJoin | minibadge/views.py:36 | Splitting a join of separator-free pieces gives back exactly those pieces. |
| Text.Take | minibadge/models.py:30 | Slicing `[:n]` gives the prefix of length min(n, length). |
| Text.RStrip | minibadge/models.py:98 | `rstrip` removes only a trailing run of the character and leaves a string that does not end with it. |
| Text.ZeroPad | minibadge/models.py:23 | `%0Nd` gives at least N digits, more when the number needs them, and they read back as the number. |
| Text.Decimal | minibadge/models.py:23 | `%s` of a natural number gives digits with no leading zero that read back as the number. |
| Query.Filter | minibadge/views.py:39 | A query result keeps exactly the rows that match, each as often as the table holds it. |
| Views.MissingEmails | minibadge/views.py:40 | An email is missing exactly when it was submitted and no stored award of the badge has it. |
| Views.AwardBadge | minibadge/views.py:30-56 | See the Served predicate. Without a valid POST (no POST, or an empty `emails` field) the form is shown and nothing changes. On a valid POST, pre-existing rows stay unchanged, and every new award is of the badge and goes to a different missing email. The list holds the found awards, then the new ones. When the method returns the redirect, every missing email got an award and each award in the list was mailed once, in order. Each new award's slug was free when it was saved and comes from a clock reading after those of the awards before it. Every reading it skipped gave a slug taken at that moment, by the table before the request or by an award the request had already created. The request fails only when a missing email without an award gets a taken slug from every reading not yet used. |
| Views.CreateAwards | minibadge/views.py:40-41 | The creation loop appends awards of the badge only, at most one per missing email, each with a well-formed slug. Each award's slug was free when it was saved and comes from a later clock reading than the one before. Each skipped reading gave a slug taken at that moment. When it completes, every missing email has its award. When it stops early, it names a missing email without an award that gets a taken slug from every unused reading. |
| Views.AccountOneMore | minibadge/models.py:95-102 | One more award keeps the readings accounted for. Its slug must be free in the table at that moment and come from a reading at or after the first unused one. Every reading in between must have given a slug taken at that moment. The next unused reading is then the one after it. |
| Views.StampsUnique | minibadge/models.py:95-102 | The accounting of readings is unique. Each award's reading is the first one, from where the previous award stopped, whose slug was free at that moment. So the readings a request used are fixed by the awards it created. |
| Views.SendMails | minibadge/views.py:44-49 | One mail per award in the list, pre-existing or new, in list order, to the award's email. |
| Views.EveryEmailAwarded | minibadge/views.py:39-41 | After a successful request, every submitted email holds an award of the badge, both in the table and in the mailed list. |
| Views.ReissueFindsEverything | minibadge/views.py:39-41 | After a successful request, the same emails find nothing missing. The query then returns the earlier found awards followed by the new ones. |
| Views.SecondRequestCreatesNothing | minibadge/views.py:33-51 | Serving the same valid POST a second time creates no award and returns the redirect. It finds and mails the same list as the first time. |
| Views.AwardBadgeTwice | minibadge/views.py:33-51 | Two identical valid requests in a row: if the first returns the redirect, the second leaves the table as it was and mails the same recipients. |
| Views.ClaimedAwards | minibadge/views.py:65-69 | Claiming returns exactly the stored awards whose email equals the given one, each as often as stored. |
| Tags.AwardBadgeUrl | minibadge/urls.py:8 | The award route can be reversed exactly for a non-empty slug without `/`. Every valid badge slug qualifies. |
| Tags.ResolveReverse | minibadge/urls.py:8 | Resolving the reversed award URL of a slug gives that slug back. |
| Tags.ReverseResolve | minibadge/urls.py:8 | Any path the award route resolves is the reversed URL of the slug it resolves to. |
| Tags.AwardBadgeLink | minibadge/templatetags/minibadge_tags.py:7-11 | A user who may not award the badge gets the empty string. A user who may gets a non-empty anchor starting with `<a class="award_badge" href="`. A slug that cannot be reversed raises NoReverseMatch. |
| Tags.AnchorRoundTrip | minibadge/templatetags/minibadge_tags.py:9 | The anchor markup reads back to the href and text it was filled with. |
| Tags.LinkIffAllowed | minibadge/templatetags/minibadge_tags.py:8-11 | For a routable slug the tag never fails, and its output is non-empty exactly when the user is allowed. |
| Tags.LinkTargetsAwardRoute | minibadge/templatetags/minibadge_tags.py:9 | A produced link's text is exactly `Issue award`, and its href resolves through the award route to the badge's slug. |
| Tags.NoUserAlwaysLinked | minibadge/templatetags/minibadge_tags.py:8 | Called without a user, the tag always renders the link for a badge with a valid slug. |

## Left out

- MD5 is not modelled. It is the parameter `md5`, and only the encoding of its 16-byte digest is.
- `datetime.now()`, `time()` and `random.randint` are parameters. The string form of a datetime reading is part of the `clock` parameter.
- Models.Award.GetNewSlug: the source retries without bound by recursion. The model retries at most once per supplied clock reading and reports `RetriesExhausted` when they run out. The source would instead recurse until Python's recursion limit raises.
- Views.AwardBadge: a failure to find a free slug ends the request as `ServerError`, with the awards created so far kept and no mail sent. This is the model's stand-in for the exception the source would raise.
- Views.AwardBadge: `Redirect("/")` is the `HttpResponseRedirect` object that `get_context_data` returns (minibadge/views.py:51). `AwardBadgeView` is a `DetailView` whose `post` calls `get` (minibadge/views.py:23-28), and `get` passes that object on to `render_to_response` as the page context instead of sending it. So the client gets the award page rendered (or a rendering error), and no redirect reaches it. The framework's rendering is not modelled.
- Sending mail, rendering the mail body and the page, and the mailer module are left out. The model returns the list of recipients the mailing loop addresses. A failing `send_mail` would raise part-way through the loop; that is not modelled.
- Query.Filter: the ORM gives no order for `filter` (the award model has no `Meta.ordering` and the view no `order_by`). The model returns rows in insertion order. The list equalities in Views.ReissueFindsEverything, Views.SecondRequestCreatesNothing and Views.AwardBadgeTwice hold under that order. Under another order they hold only as multisets.
- Views.ReissueFindsEverything: the query result equals the earlier found awards followed by the new ones in insertion order. The database does not promise this order.
- Views.SecondRequestCreatesNothing: the second request's list and recipients equal the first's in insertion order. The database does not promise this order.
- Views.AwardBadgeTwice: the recipients of the two requests are equal in insertion order. The database does not promise this order.
- Python iterates over a set of emails in an unspecified order. The model picks any order, and its contracts hold for every order.
- `login_required`, fetching the badge by slug (and the 404 for an unknown one), the context dictionary and the `post`-to-`get` dispatch are Django plumbing. The view method receives the badge.
- Tags.AwardBadgeUrl: `reverse` percent-encodes characters outside the URI-safe set, and this is not modelled. For the characters a slug field accepts (letters, digits, `-`, `_`) the encoding changes nothing.
- Tags.LinkTargetsAwardRoute: requires that the URL root and the slug contain no double quote. This follows from leaving out percent-encoding, which would escape such a quote.
- The ORM's string matching is modelled as exact equality. Case-insensitive collations of some database backends are not modelled.
- `Award.save` on an award that is already stored (an UPDATE) is not modelled. Only the insert path the view uses is.
- Field validation is not modelled: the maximum lengths, `EmailField` syntax and `blank=False`. `objects.create` does not run it either.
- Badge title uniqueness, timestamps, image storage, `get_absolute_url`, `get_assertion_url`, `__str__`, the list and detail views, the admin, forms rendering and packaging are outside the modelled core.
- Assertion documents and recipient hashing are not in the source's code and are not modelled.
- Concurrent requests are not modelled. The source has no locking and no (badge, email) constraint.
- Models.Award.GetNewSlug: Python 2 byte and unicode handling of the MD5 input is not modelled. The input is the reading followed by the email, as one string given to the `md5` parameter. Form data is unicode, so `"%s%s" % (datetime.now(), self.email)` is a unicode string, and `m.update` (minibadge/models.py:97) encodes it as ASCII. For an email with a non-ASCII character that raises `UnicodeEncodeError` and the request fails, where the model creates the award.
