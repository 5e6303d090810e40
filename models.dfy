/**
 * The records of minibadge: badges, the users who may award them, awards and
 * their short public identifiers, and the paths under which badge images are
 * uploaded. The awards table behind `Award.objects` is an in-memory store.
 */
module Models {
  import opened Wrappers
  import opened Text
  import opened Base64
  import opened Query

  type UserId = nat
  type BadgeId = nat

  /** A user as the authorization check sees one. */
  datatype User = User(id: UserId, isAnonymous: bool, isStaff: bool, isSuperuser: bool)

  /** A badge. Its image file is not part of this model; its creator is optional. */
  datatype Badge = Badge(id: BadgeId, title: string, slug: string, description: string, creator: Option<UserId>)

  /** What a `SlugField` with its default length accepts: 1 to 50 characters
      from `-`, `_`, ASCII letters and digits (the URL-safe base64 alphabet). */
  predicate IsBadgeSlug(s: string)
  {
    1 <= |s| <= 50 && IsUrlSafe(s)
  }

  // ---------------------------------------------------------------- authorization

  /** Whether `user` may award `badge`; `None` stands for a call made with no user. */
  function AllowsAwardTo(badge: Badge, user: Option<User>): (allowed: bool)
    ensures user.None? ==> allowed
    ensures user.Some? && user.value.isAnonymous ==> !allowed
    ensures user.Some? && !user.value.isAnonymous && (user.value.isStaff || user.value.isSuperuser) ==> allowed
    ensures user.Some? && !user.value.isAnonymous && !user.value.isStaff && !user.value.isSuperuser ==>
              (allowed <==> badge.creator == Some(user.value.id))
  {
    match user
    case None => true
    case Some(u) =>
      if u.isAnonymous then false
      else if u.isStaff || u.isSuperuser then true
      else if badge.creator == Some(u.id) then true
      else false
  }

  /** The anonymous check comes first: an anonymous user is refused even when
      flagged staff and recorded as the badge's creator. */
  lemma AnonymousBeforeStaffAndCreator(badge: Badge, u: User)
    requires u.isAnonymous && u.isStaff && u.isSuperuser && badge.creator == Some(u.id)
    ensures !AllowsAwardTo(badge, Some(u))
  {
  }

  // ---------------------------------------------------------------- upload paths

  /** `Badge.get_upload_meta`: the directory and the slug used in upload paths. */
  function UploadMeta(badge: Badge): (string, string)
  {
    ("badge", badge.slug)
  }

  /** `"%04d" % rand` for `rand` drawn by `random.randint(0, 1000)`: always 4 digits. */
  function RandField(rand: nat): (field: string)
    requires rand <= 1000
    ensures |field| == 4 && AllDigits(field) && DecimalValue(field) == rand
  {
    assert Pow10(4) == 10000;
    DecimalLength(rand, 4);
    ZeroPad(rand, 4)
  }

  /** `t` occurs in `s` at position `k`. */
  predicate Occurs(s: string, t: string, k: nat)
  {
    k + |t| <= |s| && s[k..k + |t|] == t
  }

  /** The pieces of `a + b + c + d` occur one after the other. */
  lemma Layout(a: string, b: string, c: string, d: string)
    ensures var s := a + b + c + d;
      && |s| == |a| + |b| + |c| + |d|
      && Occurs(s, a, 0) && Occurs(s, b, |a|) && Occurs(s, c, |a| + |b|) && Occurs(s, d, |a| + |b| + |c|)
  {
    var s := a + b + c + d;
    assert s[..|a|] == a;
    assert s[|a|..|a| + |b|] == b;
    assert s[|a| + |b|..|a| + |b| + |c|] == c;
    assert s[|a| + |b| + |c|..] == d;
  }

  /** The path `mk_upload_to(fieldFn, ext)` builds for an instance whose upload meta is
      `meta`, at Unix time `now`, with `rand` drawn from 0..1000 inclusive:
      `base/fieldFn_slug_now_rand.ext`, the slug cut to 50 characters and `rand`
      zero-padded to 4 digits. The four pieces fill the path with nothing between. */
  function UploadTo(fieldFn: string, ext: string, meta: (string, string), now: nat, rand: nat): (path: string)
    requires rand <= 1000
    ensures var slugStart := |meta.0| + |fieldFn| + 2;
            var nowStart := slugStart + |Take(meta.1, 50)| + 1;
            var randStart := nowStart + |Decimal(now)|;
      && Occurs(path, meta.0 + "/" + fieldFn + "_", 0)
      && Occurs(path, Take(meta.1, 50) + "_", slugStart)
      && Occurs(path, Decimal(now), nowStart)
      && Occurs(path, "_" + RandField(rand) + "." + ext, randStart)
      && |path| == randStart + |ext| + 6
  {
    var head := meta.0 + "/" + fieldFn + "_";
    var part := Take(meta.1, 50) + "_";
    var stamp := Decimal(now);
    var tail := "_" + RandField(rand) + "." + ext;
    Layout(head, part, stamp, tail);
    head + part + stamp + tail
  }

  /** The path of an uploaded badge image (field `image`, extension `png`). */
  function BadgeImagePath(badge: Badge, now: nat, rand: nat): (path: string)
    requires rand <= 1000
    ensures Occurs(path, "badge/image_", 0)
    ensures IsBadgeSlug(badge.slug) ==> Occurs(path, badge.slug + "_", 12)
  {
    var path := UploadTo("image", "png", UploadMeta(badge), now, rand);
    assert "badge" + "/" + "image" + "_" == "badge/image_";
    path
  }

  // ---------------------------------------------------------------- awards

  /** A stored award: the badge it is of, the recipient's email, its public slug. */
  datatype AwardRow = AwardRow(badge: BadgeId, email: string, slug: string)

  /** Award slugs are 5 characters long. */
  const SlugLength: nat := 5

  /** A slug `get_new_slug` can produce: 5 URL-safe characters. It meets the
      constraints of the `slug` field (non-blank, at most 5 characters). */
  predicate IsAwardSlug(s: string)
  {
    |s| == SlugLength && IsUrlSafe(s)
  }

  /** An MD5 digest: 16 bytes. MD5 itself is a parameter of the model. */
  type Md5Digest = d: seq<byte> | |d| == 16 witness seq(16, _ => 0)

  /** The slug a digest gives: the first 5 characters of its URL-safe base64
      encoding, which the `=` padding never reaches. */
  function DigestSlug(digest: Md5Digest): (slug: string)
    ensures IsAwardSlug(slug)
  {
    EncodeNoPad(digest)[..SlugLength]
  }

  /** `urlsafe_b64encode(digest).rstrip("=")[:5]`, computed the way the source
      writes it: it is the digest's slug, since the padding never reaches the
      first 5 characters. */
  method EncodeSlug(digest: Md5Digest) returns (slug: string)
    ensures slug == DigestSlug(digest)
  {
    slug := Take(RStrip(UrlSafeEncode(digest), '='), SlugLength);
    StripPadding(digest);
  }

  /** One attempt of `get_new_slug`: the slug of the digest of the clock reading
      followed by the email. */
  function SlugCandidate(md5: string -> Md5Digest, now: string, email: string): string
  {
    DigestSlug(md5(now + email))
  }

  /** The unique constraint on `Award.slug`. */
  ghost predicate SlugsUnique(rows: seq<AwardRow>)
  {
    forall i, j :: 0 <= i < j < |rows| ==> rows[i].slug != rows[j].slug
  }

  function SlugsOf(rows: seq<AwardRow>): set<string>
  {
    set a | a in rows :: a.slug
  }

  function HasSlug(slug: string): AwardRow -> bool
  {
    (a: AwardRow) => a.slug == slug
  }

  /** The outcome of `Award.save`. */
  datatype SaveOutcome =
    | Saved
    | IntegrityError     // the slug it kept is already used by another award
    | RetriesExhausted   // every clock reading offered gave a slug already in use

  /** The awards table, reached in the source through `Award.objects`. */
  class AwardStore {
    var rows: seq<AwardRow>

    ghost predicate Valid()
      reads this
    {
      SlugsUnique(rows)
    }

    constructor ()
      ensures Valid() && rows == []
    {
      rows := [];
    }

    function Slugs(): set<string>
      reads this
    {
      SlugsOf(rows)
    }

    /** `len(Award.objects.filter(slug=slug)) > 0`: whether a stored award uses `slug`. */
    method SlugTaken(slug: string) returns (taken: bool)
      ensures taken <==> slug in Slugs()
    {
      var found := Filter(rows, HasSlug(slug));
      assert slug in Slugs() ==> exists a :: a in rows && a.slug == slug;
      assert found != [] ==> found[0] in found;
      taken := |found| > 0;
    }

    /** An INSERT: the database refuses a row whose slug is already used. */
    method Insert(row: AwardRow) returns (ok: bool)
      requires Valid()
      modifies this
      ensures Valid()
      ensures ok <==> row.slug !in old(Slugs())
      ensures rows == if ok then old(rows) + [row] else old(rows)
    {
      var taken := SlugTaken(row.slug);
      ok := !taken;
      if ok {
        assert forall i :: 0 <= i < |rows| ==> rows[i] in rows;
        rows := rows + [row];
      }
    }

    /** `Award.objects.create(badge=badge, email=email)`: a new award with no slug,
        saved. `clock` holds the readings `datetime.now()` would give. */
    method Create(badge: BadgeId, email: string, clock: seq<string>, md5: string -> Md5Digest)
      returns (award: Option<AwardRow>, ticks: nat)
      requires Valid()
      modifies this
      ensures Valid()
      ensures ticks <= |clock|
      ensures award.Some? ==>
                && rows == old(rows) + [award.value]
                && award.value.badge == badge && award.value.email == email
                && IsAwardSlug(award.value.slug) && award.value.slug !in old(Slugs())
                && 1 <= ticks && award.value.slug == SlugCandidate(md5, clock[ticks - 1], email)
                && forall k :: 0 <= k < ticks - 1 ==> SlugCandidate(md5, clock[k], email) in old(Slugs())
      ensures award.None? ==>
                && rows == old(rows) && ticks == |clock|
                && forall k :: 0 <= k < |clock| ==> SlugCandidate(md5, clock[k], email) in old(Slugs())
    {
      var a := new Award(badge, email, "");
      var outcome;
      outcome, ticks := a.Save(this, clock, md5);
      if outcome == Saved {
        award := Some(a.Row());
      } else {
        award := None;
      }
    }
  }

  /** An award as a Python object: `save` fills in its slug before storing it. */
  class Award {
    var badge: BadgeId
    var email: string
    var slug: string

    constructor (badge: BadgeId, email: string, slug: string)
      ensures this.badge == badge && this.email == email && this.slug == slug
    {
      this.badge, this.email, this.slug := badge, email, slug;
    }

    function Row(): AwardRow
      reads this
    {
      AwardRow(badge, email, slug)
    }

    /** `get_new_slug`: tries the clock readings in order and returns the first
        candidate no stored award uses, with the number of readings consumed. */
    method GetNewSlug(store: AwardStore, clock: seq<string>, md5: string -> Md5Digest)
      returns (found: Option<string>, ticks: nat)
      ensures ticks <= |clock|
      ensures found.Some? ==>
                && 1 <= ticks
                && found.value == SlugCandidate(md5, clock[ticks - 1], email)
                && IsAwardSlug(found.value) && found.value !in store.Slugs()
                && forall k :: 0 <= k < ticks - 1 ==> SlugCandidate(md5, clock[k], email) in store.Slugs()
      ensures found.None? ==>
                && ticks == |clock|
                && forall k :: 0 <= k < |clock| ==> SlugCandidate(md5, clock[k], email) in store.Slugs()
    {
      ticks := 0;
      while ticks < |clock|
        invariant ticks <= |clock|
        invariant forall k :: 0 <= k < ticks ==> SlugCandidate(md5, clock[k], email) in store.Slugs()
      {
        var candidate := EncodeSlug(md5(clock[ticks] + email));
        assert candidate == SlugCandidate(md5, clock[ticks], email);
        var taken := store.SlugTaken(candidate);
        if !taken {
          return Some(candidate), ticks + 1;
        }
        ticks := ticks + 1;
      }
      return None, ticks;
    }

    /** `save`: a slug already set is kept; an empty one is replaced by a new one
        before the row is inserted. */
    method Save(store: AwardStore, clock: seq<string>, md5: string -> Md5Digest)
      returns (outcome: SaveOutcome, ticks: nat)
      requires store.Valid()
      modifies this`slug, store
      ensures store.Valid()
      ensures ticks <= |clock|
      ensures old(slug) != "" ==> slug == old(slug) && ticks == 0 && outcome != RetriesExhausted
      ensures old(slug) == "" && outcome != RetriesExhausted ==>
                1 <= ticks && slug == SlugCandidate(md5, clock[ticks - 1], email)
                && forall k :: 0 <= k < ticks - 1 ==> SlugCandidate(md5, clock[k], email) in old(store.Slugs())
      ensures outcome == RetriesExhausted ==>
                old(slug) == "" && slug == "" && ticks == |clock|
                && forall k :: 0 <= k < |clock| ==> SlugCandidate(md5, clock[k], email) in old(store.Slugs())
      ensures outcome == IntegrityError <==> old(slug) != "" && old(slug) in old(store.Slugs())
      ensures outcome == Saved ==> slug != "" && slug !in old(store.Slugs())
      ensures store.rows == if outcome == Saved then old(store.rows) + [Row()] else old(store.rows)
    {
      ticks := 0;
      if slug == "" {
        var found;
        found, ticks := GetNewSlug(store, clock, md5);
        if found.None? {
          return RetriesExhausted, ticks;
        }
        slug := found.value;
      }
      var ok := store.Insert(Row());
      outcome := if ok then Saved else IntegrityError;
    }
  }
}
