/** The access-code collection (`src/models/accessCode.models.js`) and its
    controller (`src/controllers/accessCode.controllers.js`). The schema's
    constraints are the collection's invariant; the collection is the field
    of one object, and each record carries the identifier the database
    assigns it. */
module AccessCodes {
  import opened Wrappers
  import opened Seqs

  /** `86400000`: one day in milliseconds. */
  const DayMs: int := 86400000

  /** One record. */
  datatype AccessCode = AccessCode(
    id: nat,
    code: string,
    expiryDays: int,
    expiresAt: int,
    createdAt: int,
    isUsed: bool)

  /** `expiryDays` as the request gives it: absent (or otherwise falsy but
      not a number), not a number, or a whole number. */
  datatype DaysInput = Missing | NotNumeric | Days(n: int)

  // ----------------------------------------------------------- the schema

  /** `code` is required (a non-empty string) and `expiryDays` is required
      with minimum 1. */
  predicate WellFormed(d: AccessCode) {
    d.code != "" && d.expiryDays >= 1
  }

  /** `unique: true` on `code`, and one record per identifier. */
  predicate Unique(docs: seq<AccessCode>) {
    forall i, j :: 0 <= i < j < |docs| ==> docs[i].code != docs[j].code && docs[i].id != docs[j].id
  }

  predicate Consistent(docs: seq<AccessCode>) {
    Unique(docs) && forall i :: 0 <= i < |docs| ==> WellFormed(docs[i])
  }

  /** The pre-save hook: an absent `expiresAt` is set from a set `expiryDays`;
      a present one is kept. */
  function PreSave(expiresAt: Option<int>, expiryDays: Option<int>, now: int): (r: Option<int>)
    ensures expiresAt.Some? ==> r == expiresAt
    ensures expiresAt.None? && expiryDays.Some? && expiryDays.value != 0 ==>
              r == Some(now + expiryDays.value * DayMs)
    ensures r.None? <==> expiresAt.None? && (expiryDays.None? || expiryDays.value == 0)
  {
    if expiresAt.None? && expiryDays.Some? && expiryDays.value != 0 then
      Some(now + expiryDays.value * DayMs)
    else expiresAt
  }

  /** The hook computes the same instant as the controller does. */
  lemma PreSaveAgreesWithController(days: int, now: int)
    requires days >= 1
    ensures PreSave(None, Some(days), now) == Some(ExpiryOf(days, now))
    ensures PreSave(Some(ExpiryOf(days, now)), Some(days), now) == Some(ExpiryOf(days, now))
  {
  }

  // ----------------------------------------------------------- createCode

  /** Why `createCode` throws: its own check of `expiryDays`, the schema's
      `required` on `code`, or the unique index on `code`. */
  datatype CreateError = InvalidExpiryDays | CodeRequired | DuplicateCode

  function ErrorText(e: CreateError): string {
    match e
    case InvalidExpiryDays => "Valid expiry days (≥1) required"
    case CodeRequired => "Path `code` is required."
    case DuplicateCode => "E11000 duplicate key error collection: accesscodes index: code_1"
  }

  datatype Created = Rejected(error: CreateError) | Stored(doc: AccessCode)

  /** `!expiryDays || isNaN(expiryDays) || expiryDays < 1`. */
  predicate BadDays(days: DaysInput) {
    !days.Days? || days.n < 1
  }

  /** `now` advanced by `days` days. */
  function ExpiryOf(days: int, now: int): (r: int)
    ensures days >= 1 ==> r >= now + DayMs
  {
    now + days * DayMs
  }

  /** `code || generateRandomCode()`: a given code is used verbatim; the
      generated one only when none is given. */
  function ChosenCode(code: Option<string>, generated: string): (r: string)
    ensures code.Some? && code.value != "" ==> r == code.value
    ensures code.None? || code.value == "" ==> r == generated
  {
    if code.Some? && code.value != "" then code.value else generated
  }

  /** What `createCode` does to a collection holding `docs` at time `now`,
      the database assigning identifier `id`. */
  function Create(docs: seq<AccessCode>, code: Option<string>, days: DaysInput, generated: string,
                  id: nat, now: int): (r: Created)
    ensures r == Rejected(InvalidExpiryDays) <==> BadDays(days)
    ensures r == Rejected(DuplicateCode) <==>
              !BadDays(days) && ChosenCode(code, generated) != "" &&
              exists i :: 0 <= i < |docs| && docs[i].code == ChosenCode(code, generated)
    ensures r == Rejected(CodeRequired) <==> !BadDays(days) && ChosenCode(code, generated) == ""
    ensures r.Stored? <==>
              !BadDays(days) && ChosenCode(code, generated) != "" &&
              forall i :: 0 <= i < |docs| ==> docs[i].code != ChosenCode(code, generated)
    ensures r.Stored? ==>
              && r.doc == AccessCode(id, ChosenCode(code, generated), days.n, ExpiryOf(days.n, now), now, false)
              && WellFormed(r.doc)
              && forall i :: 0 <= i < |docs| ==> docs[i].code != r.doc.code
  {
    if BadDays(days) then Rejected(InvalidExpiryDays)
    else
      var c := ChosenCode(code, generated);
      if c == "" then Rejected(CodeRequired)
      else if exists i :: 0 <= i < |docs| && docs[i].code == c then Rejected(DuplicateCode)
      else Stored(AccessCode(id, c, days.n, ExpiryOf(days.n, now), now, false))
  }

  /** A stored record keeps the collection valid. */
  lemma CreateKeepsValid(docs: seq<AccessCode>, code: Option<string>, days: DaysInput, generated: string,
                         id: nat, now: int)
    requires Consistent(docs) && forall i :: 0 <= i < |docs| ==> docs[i].id != id
    requires Create(docs, code, days, generated, id, now).Stored?
    ensures Consistent(docs + [Create(docs, code, days, generated, id, now).doc])
  {
    var d := Create(docs, code, days, generated, id, now).doc;
    var all := docs + [d];
    forall i, j | 0 <= i < j < |all| ensures all[i].code != all[j].code && all[i].id != all[j].id {
      if j == |docs| {
        assert all[i] == docs[i] && all[j] == d;
      } else {
        assert all[i] == docs[i] && all[j] == docs[j];
      }
    }
    assert forall i :: 0 <= i < |docs| ==> all[i] == docs[i];
  }

  // --------------------------------------------------- validate and list

  /** `findOne({code, expiresAt: {$gt: now}, isUsed: false})`. */
  predicate Usable(d: AccessCode, code: string, now: int) {
    d.code == code && d.expiresAt > now && !d.isUsed
  }

  function Validate(docs: seq<AccessCode>, code: string, now: int): (r: Option<AccessCode>)
    ensures r.Some? ==> r.value in docs && Usable(r.value, code, now)
    ensures r.None? <==> forall i :: 0 <= i < |docs| ==> !Usable(docs[i], code, now)
  {
    match FirstIndex(docs, (d: AccessCode) => Usable(d, code, now))
    case None => None
    case Some(i) => Some(docs[i])
  }

  /** With unique codes the record found is the only one with that code. */
  lemma ValidateFindsTheRecord(docs: seq<AccessCode>, code: string, now: int, k: nat)
    requires Consistent(docs) && k < |docs| && docs[k].code == code
    ensures Validate(docs, code, now) == if Usable(docs[k], code, now) then Some(docs[k]) else None
  {
    var r := Validate(docs, code, now);
    if r.Some? {
      var j :| 0 <= j < |docs| && docs[j] == r.value;
      assert j == k;
    }
  }

  /** `expiresAt: {$gt: now}`. */
  function UnexpiredAt(now: int): (r: AccessCode -> bool)
    ensures forall d :: r(d) == (d.expiresAt > now)
  {
    (d: AccessCode) => d.expiresAt > now
  }

  /** Ascending by `expiresAt`. */
  predicate SortedByExpiry(s: seq<AccessCode>) {
    forall i, j :: 0 <= i < j < |s| ==> s[i].expiresAt <= s[j].expiresAt
  }

  /** `d` placed before the first record that expires later. */
  function Insert(d: AccessCode, s: seq<AccessCode>): (r: seq<AccessCode>)
    requires SortedByExpiry(s)
    ensures SortedByExpiry(r)
    ensures |r| == |s| + 1 && forall k :: 0 <= k < |r| ==> r[k] == d || r[k] in s
    ensures multiset(r) == multiset(s) + multiset{d}
  {
    if s == [] || d.expiresAt <= s[0].expiresAt then
      SortedCons(d, s);
      [d] + s
    else
      var rest := Insert(d, s[1..]);
      HeadBelowInserted(d, s, rest);
      SortedCons(s[0], rest);
      assert s == [s[0]] + s[1..];
      [s[0]] + rest
  }

  /** The head of a sorted list is no later than anything inserted after it. */
  lemma HeadBelowInserted(d: AccessCode, s: seq<AccessCode>, rest: seq<AccessCode>)
    requires SortedByExpiry(s) && s != [] && s[0].expiresAt < d.expiresAt
    requires forall k :: 0 <= k < |rest| ==> rest[k] == d || rest[k] in s[1..]
    ensures forall k :: 0 <= k < |rest| ==> s[0].expiresAt <= rest[k].expiresAt
  {
    forall k | 0 <= k < |rest| ensures s[0].expiresAt <= rest[k].expiresAt {
      if rest[k] != d {
        var j :| 0 <= j < |s[1..]| && s[1..][j] == rest[k];
        assert s[j + 1] == rest[k];
      }
    }
  }

  /** A record no later than any of a sorted list may go in front of it. */
  lemma SortedCons(x: AccessCode, s: seq<AccessCode>)
    requires SortedByExpiry(s)
    requires forall k :: 0 <= k < |s| ==> x.expiresAt <= s[k].expiresAt
    ensures SortedByExpiry([x] + s)
  {
    var r := [x] + s;
    forall i, j | 0 <= i < j < |r| ensures r[i].expiresAt <= r[j].expiresAt {
      assert r[j] == s[j - 1];
      if i > 0 { assert r[i] == s[i - 1]; }
    }
  }

  /** `.sort({expiresAt: 1})`. */
  function SortByExpiry(s: seq<AccessCode>): (r: seq<AccessCode>)
    ensures SortedByExpiry(r)
    ensures multiset(r) == multiset(s)
  {
    if s == [] then []
    else
      assert s == [s[0]] + s[1..];
      Insert(s[0], SortByExpiry(s[1..]))
  }

  /** `listCodes`: the unexpired records, soonest expiry first. */
  function List(docs: seq<AccessCode>, now: int): (r: seq<AccessCode>)
    ensures SortedByExpiry(r)
    ensures multiset(r) == multiset(Filter(docs, UnexpiredAt(now)))
    ensures forall d :: d in r <==> d in docs && d.expiresAt > now
  {
    var live := Filter(docs, UnexpiredAt(now));
    var r := SortByExpiry(live);
    assert forall d :: d in r <==> d in multiset(live);
    r
  }

  // ---------------------------------------------------- delete and sweep

  /** `findByIdAndDelete(id)`: the records other than `id`, and the removed
      one, if any. */
  function OtherThan(id: nat): (r: AccessCode -> bool)
    ensures forall d :: r(d) == (d.id != id)
  {
    (d: AccessCode) => d.id != id
  }

  function FindById(docs: seq<AccessCode>, id: nat): (r: Option<AccessCode>)
    ensures r.Some? ==> r.value in docs && r.value.id == id
    ensures r.None? <==> forall i :: 0 <= i < |docs| ==> docs[i].id != id
  {
    match FirstIndex(docs, (d: AccessCode) => d.id == id)
    case None => None
    case Some(i) => Some(docs[i])
  }

  /** A deletion keeps every other record and the invariant. */
  lemma DeleteKeepsOthers(docs: seq<AccessCode>, id: nat)
    requires Consistent(docs)
    ensures Consistent(Filter(docs, OtherThan(id)))
    ensures forall d :: d in Filter(docs, OtherThan(id)) <==> d in docs && d.id != id
  {
    FilterKeepsValid(docs, OtherThan(id));
  }

  /** Any filter keeps the invariant. */
  lemma {:induction false} FilterKeepsValid(docs: seq<AccessCode>, p: AccessCode -> bool)
    requires Consistent(docs)
    ensures Consistent(Filter(docs, p))
  {
    if |docs| > 0 {
      var tail := docs[1..];
      assert Consistent(tail) by {
        assert forall i :: 0 <= i < |tail| ==> tail[i] == docs[i + 1];
      }
      FilterKeepsValid(tail, p);
      var rest := Filter(tail, p);
      if p(docs[0]) {
        forall k | 0 <= k < |rest| ensures rest[k].code != docs[0].code && rest[k].id != docs[0].id {
          var j :| 0 <= j < |tail| && tail[j] == rest[k];
          assert docs[j + 1] == rest[k];
        }
        ConsistentCons(docs[0], rest);
      }
    }
  }

  /** A well-formed record sharing neither code nor id with a consistent
      list may go in front of it. */
  lemma ConsistentCons(x: AccessCode, s: seq<AccessCode>)
    requires Consistent(s) && WellFormed(x)
    requires forall k :: 0 <= k < |s| ==> s[k].code != x.code && s[k].id != x.id
    ensures Consistent([x] + s)
  {
    var r := [x] + s;
    forall i, j | 0 <= i < j < |r| ensures r[i].code != r[j].code && r[i].id != r[j].id {
      assert r[j] == s[j - 1];
      if i > 0 { assert r[i] == s[i - 1]; }
    }
    assert forall i :: 0 < i < |r| ==> r[i] == s[i - 1];
  }

  /** The TTL index (`expires: 0`) deletes records whose `expiresAt` has
      passed, at a time of the database's choosing. */
  function Swept(docs: seq<AccessCode>, t: int): (r: seq<AccessCode>)
    ensures forall d :: d in r <==> d in docs && d.expiresAt > t
  {
    Filter(docs, UnexpiredAt(t))
  }

  /** No validation can tell whether a sweep has run. */
  lemma {:induction false} SweepInvisibleToValidate(docs: seq<AccessCode>, code: string, t: int, now: int)
    requires t <= now
    ensures Validate(Swept(docs, t), code, now) == Validate(docs, code, now)
  {
    if |docs| > 0 {
      assert docs == [docs[0]] + docs[1..];
      SweepInvisibleToValidate(docs[1..], code, t, now);
      SweepStep(docs[0], docs[1..], code, t, now);
    }
  }

  /** The step of `SweepInvisibleToValidate`: a record the sweep removes
      could not have been validated, and one it keeps is looked at first. */
  lemma SweepStep(x: AccessCode, tail: seq<AccessCode>, code: string, t: int, now: int)
    requires t <= now
    requires Validate(Swept(tail, t), code, now) == Validate(tail, code, now)
    ensures Validate(Swept([x] + tail, t), code, now) == Validate([x] + tail, code, now)
  {
    FilterCons(x, tail, UnexpiredAt(t));
    ValidateCons(x, tail, code, now);
    if x.expiresAt > t {
      assert Swept([x] + tail, t) == [x] + Swept(tail, t);
      ValidateCons(x, Swept(tail, t), code, now);
    } else {
      assert Swept([x] + tail, t) == Swept(tail, t);
    }
  }

  /** `Validate` looks at the first record, then the rest. */
  lemma ValidateCons(x: AccessCode, tail: seq<AccessCode>, code: string, now: int)
    ensures Validate([x] + tail, code, now) ==
              if Usable(x, code, now) then Some(x) else Validate(tail, code, now)
  {
    var docs := [x] + tail;
    assert docs[1..] == tail;
    if !Usable(x, code, now) {
      var r := Validate(tail, code, now);
      if r.None? {
        assert forall i :: 1 <= i < |docs| ==> docs[i] == tail[i - 1];
      } else {
        var v := Validate(docs, code, now);
        var i :| 0 <= i < |docs| && docs[i] == v.value;
      }
    }
  }

  /** No listing can tell whether a sweep has run. */
  lemma SweepInvisibleToList(docs: seq<AccessCode>, t: int, now: int)
    requires t <= now
    ensures multiset(List(Swept(docs, t), now)) == multiset(List(docs, now))
  {
    FilterStronger(docs, UnexpiredAt(t), UnexpiredAt(now));
  }

  // ----------------------------------------------------------- the store

  class AccessCodeCollection {
    var docs: seq<AccessCode>

    predicate Valid()
      reads this
    {
      Consistent(docs)
    }

    constructor ()
      ensures Valid() && docs == []
    {
      docs := [];
    }

    /** `createCode`: on success the new record is appended; a thrown error
        leaves the collection as it was. */
    method CreateCode(code: Option<string>, expiryDays: DaysInput, generated: string, id: nat, now: int)
      returns (r: Created)
      requires Valid() && forall i :: 0 <= i < |docs| ==> docs[i].id != id
      modifies this
      ensures r == Create(old(docs), code, expiryDays, generated, id, now)
      ensures r.Stored? ==> docs == old(docs) + [r.doc]
      ensures r.Rejected? ==> docs == old(docs)
      ensures Valid()
    {
      r := Create(docs, code, expiryDays, generated, id, now);
      if r.Stored? {
        CreateKeepsValid(docs, code, expiryDays, generated, id, now);
        docs := docs + [r.doc];
      }
    }

    /** `validateCode`. */
    method ValidateCode(code: string, now: int) returns (r: Option<AccessCode>)
      ensures r == Validate(docs, code, now)
    {
      r := Validate(docs, code, now);
    }

    /** `listCodes`. */
    method ListCodes(now: int) returns (r: seq<AccessCode>)
      ensures r == List(docs, now)
    {
      r := List(docs, now);
    }

    /** `deleteCode`: the removed record, or none; the others stay. */
    method DeleteCode(id: nat) returns (removed: Option<AccessCode>)
      requires Valid()
      modifies this
      ensures removed == FindById(old(docs), id)
      ensures docs == Filter(old(docs), OtherThan(id))
      ensures Valid()
    {
      removed := FindById(docs, id);
      DeleteKeepsOthers(docs, id);
      docs := Filter(docs, OtherThan(id));
    }

    /** One run of the TTL monitor at time `t`. */
    method Sweep(t: int)
      requires Valid()
      modifies this
      ensures docs == Swept(old(docs), t)
      ensures Valid()
    {
      FilterKeepsValid(docs, UnexpiredAt(t));
      docs := Swept(docs, t);
    }
  }
}
