/** The admin access-code routes (`src/routes/admin.routes.js`): a list of
    codes, each with an expiry instant, kept in one file that every route
    reads, changes and writes back. The file is the field of one object. */
module AdminCodes {
  import opened Wrappers
  import opened Seqs

  /** `24 * 60 * 60 * 1000`: one day in milliseconds. */
  const Day: int := 24 * 60 * 60 * 1000

  /** One stored code; `id` is the creation instant. */
  datatype AdminCode = AdminCode(id: int, code: string, expiry: int)

  /** `Date.now() < c.expiry`. */
  function LiveAt(now: int): (r: AdminCode -> bool)
    ensures forall c :: r(c) == (now < c.expiry)
  {
    (c: AdminCode) => now < c.expiry
  }

  /** What `cleanExpiredCodes` leaves: exactly the codes that expire after
      `now`, in their stored order; one expiring at `now` is gone. */
  function Cleaned(codes: seq<AdminCode>, now: int): (r: seq<AdminCode>)
    ensures forall c :: c in r <==> c in codes && now < c.expiry
  {
    Filter(codes, LiveAt(now))
  }

  /** Cleaning works element by element, so the survivors keep their order. */
  lemma CleanedAppend(a: seq<AdminCode>, b: seq<AdminCode>, now: int)
    ensures Cleaned(a + b, now) == Cleaned(a, now) + Cleaned(b, now)
  {
    FilterConcat(a, b, LiveAt(now));
  }

  /** Cleaning a clean list changes nothing. */
  lemma CleanedIdempotent(codes: seq<AdminCode>, now: int)
    ensures Cleaned(Cleaned(codes, now), now) == Cleaned(codes, now)
  {
    FilterIdempotent(codes, LiveAt(now));
  }

  /** A later clean removes at least what an earlier one did: cleaning at
      `now` and then at `later` is cleaning at `later`. */
  lemma CleanedLater(codes: seq<AdminCode>, now: int, later: int)
    requires now <= later
    ensures Cleaned(Cleaned(codes, now), later) == Cleaned(codes, later)
  {
    FilterStronger(codes, LiveAt(now), LiveAt(later));
  }

  /** `!code || !expiryDays`: a missing or empty code, or a missing or zero
      number of days. */
  predicate Refused(code: Option<string>, expiryDays: Option<int>) {
    code.None? || code.value == "" || expiryDays.None? || expiryDays.value == 0
  }

  /** The entry a successful create stores: `id` and start are `now`. */
  function NewCode(code: string, expiryDays: int, now: int): (r: AdminCode)
    ensures r.id == now && r.code == code
    ensures expiryDays > 0 ==> r.expiry > now
    ensures expiryDays < 0 ==> r.expiry < now
  {
    AdminCode(now, code, now + expiryDays * Day)
  }

  /** `codes.find((c) => c.code === code)`: the first entry with that code. */
  function Find(codes: seq<AdminCode>, code: Option<string>): (r: Option<AdminCode>)
    ensures r.Some? ==> r.value in codes && code == Some(r.value.code)
    ensures r.None? <==> forall c :: c in codes ==> code != Some(c.code)
    ensures r.Some? ==> exists i :: 0 <= i < |codes| && codes[i] == r.value &&
                                    forall j :: 0 <= j < i ==> code != Some(codes[j].code)
  {
    match FirstIndex(codes, (c: AdminCode) => code == Some(c.code))
    case None => None
    case Some(i) => Some(codes[i])
  }

  /** The entries kept by a delete: those whose id differs from the parsed
      one. A `NaN` id (`None`) equals nothing, so everything is kept. */
  function OtherThan(id: Option<int>): (r: AdminCode -> bool)
    ensures forall c :: r(c) == (id != Some(c.id))
  {
    (c: AdminCode) => id != Some(c.id)
  }

  function Deleted(codes: seq<AdminCode>, id: Option<int>): (r: seq<AdminCode>)
    ensures forall c :: c in r <==> c in codes && id != Some(c.id)
    ensures |r| <= |codes|
  {
    Filter(codes, OtherThan(id))
  }

  /** A delete with an id no entry has, or a `NaN` id, changes nothing. */
  lemma DeleteUnknownId(codes: seq<AdminCode>, id: Option<int>)
    requires forall c :: c in codes ==> id != Some(c.id)
    ensures Deleted(codes, id) == codes
  {
    FilterKeepsAll(codes, OtherThan(id));
  }

  /** A code created at `now` for a positive number of days validates at
      every later instant before its expiry, whatever else is stored. */
  lemma CreatedCodeValidates(codes: seq<AdminCode>, code: string, days: int, now: int, t: int)
    requires days > 0 && now <= t < NewCode(code, days, now).expiry
    ensures Find(Cleaned(codes + [NewCode(code, days, now)], t), Some(code)).Some?
  {
    var x := NewCode(code, days, now);
    assert x in codes + [x];
  }

  /** A code created for a negative number of days is already expired. */
  lemma NegativeDaysNeverValidate(codes: seq<AdminCode>, code: string, days: int, now: int, t: int)
    requires days < 0 && now <= t
    requires forall c :: c in codes ==> c.code != code
    ensures Find(Cleaned(codes + [NewCode(code, days, now)], t), Some(code)).None?
  {
  }

  /** The code file. */
  class AdminCodeFile {
    var codes: seq<AdminCode>

    /** `ensureFileExists`: a missing file starts as `[]`. */
    constructor ()
      ensures codes == []
    {
      codes := [];
    }

    /** `cleanExpiredCodes`. */
    method CleanExpired(now: int)
      modifies this
      ensures codes == Cleaned(old(codes), now)
    {
      codes := Filter(codes, LiveAt(now));
    }

    /** `POST /admin/codes`: 400 and nothing stored when refused, otherwise
        201 and the new entry appended after the others. No duplicate check
        is made, and expired entries are not cleaned here. */
    method Create(code: Option<string>, expiryDays: Option<int>, now: int)
      returns (status: int, created: Option<AdminCode>)
      modifies this
      ensures status == 400 <==> Refused(code, expiryDays)
      ensures status == 400 ==> created.None? && codes == old(codes)
      ensures status != 400 ==>
                && status == 201
                && created == Some(NewCode(code.value, expiryDays.value, now))
                && codes == old(codes) + [created.value]
    {
      if code.None? || code.value == "" || expiryDays.None? || expiryDays.value == 0 {
        return 400, None;
      }
      var newCode := AdminCode(now, code.value, now + expiryDays.value * Day);
      codes := codes + [newCode];
      return 201, Some(newCode);
    }

    /** `POST /admin/validate-code`: clean, then 200 exactly when a
        remaining entry has the code, 404 otherwise. */
    method Validate(code: Option<string>, now: int) returns (status: int)
      modifies this
      ensures codes == Cleaned(old(codes), now)
      ensures status == 200 <==> exists c :: c in codes && code == Some(c.code)
      ensures status != 200 ==> status == 404
    {
      CleanExpired(now);
      var found := Find(codes, code);
      if found.None? {
        return 404;
      }
      return 200;
    }

    /** `GET /admin/codes`: clean, then every remaining entry. */
    method List(now: int) returns (listed: seq<AdminCode>)
      modifies this
      ensures codes == Cleaned(old(codes), now) && listed == codes
      ensures forall i :: 0 <= i < |listed| ==> listed[i].expiry > now
    {
      CleanExpired(now);
      listed := codes;
    }

    /** `DELETE /admin/codes/:id`: drop every entry with the parsed id;
        the reply is a success whether or not one matched. */
    method Delete(id: Option<int>) returns (status: int)
      modifies this
      ensures codes == Deleted(old(codes), id)
      ensures status == 200
    {
      codes := Filter(codes, OtherThan(id));
      return 200;
    }
  }
}
