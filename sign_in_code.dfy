/** The sign-in code controller (`src/controllers/netflix.controllers.js`):
    find the newest sign-in-code mail for the requested address, check its age
    and recipient, extract the code and record it in the `codes.json` store. */
module SignInCode {
  import opened Wrappers
  import opened Seqs
  import opened Text
  import opened Mail

  /** The subject of a sign-in-code mail in each supported language. */
  const SubjectFilters: seq<string> := [
    "Your Netflix sign-in code",
    "Netflix: Your sign-in code",
    "Netflix: Ihr Login-Code",
    "Netflix: seu código de acesso",
    "Netflix : Votre code d'identification",
    "Netflix: Tu código de inicio de sesión",
    "Netflix: รหัสเข้าสู่ระบบของคุณ",
    "Netflix: Kode masukmu"
  ]

  /** The sender clause and the opening of the subject group. */
  const SenderClause: string := "from:(netflix.com) ("

  /** The search the controller runs for `email`. */
  function Query(email: string): (r: string)
    ensures |SenderClause| <= |r| && r[..|SenderClause|] == SenderClause
    ensures |email| <= |r| && r[|r| - |email|..] == email
  {
    SearchEndsWithRecipient(SenderClause, SubjectFilters, email);
    SearchQuery(SenderClause, SubjectFilters, email)
  }

  // -------------------------------------------------------------- freshness

  /** `(currentTime - emailDate) / (1000 * 60)`, exactly. */
  function AgeInMinutes(now: int, date: int): real {
    (now - date) as real / 60000.0
  }

  /** The age check: an age above fifteen minutes is refused; a date that
      does not parse gives `NaN`, and `NaN > 15` is false. */
  predicate StillValid(date: Option<int>, now: int) {
    date.None? || !(AgeInMinutes(now, date.value) > 15.0)
  }

  /** The age check in minutes is the fifteen-minute window in
      milliseconds, with the same treatment of unparsable dates. */
  lemma StillValidIsWithinWindow(date: Option<int>, now: int)
    ensures StillValid(date, now) <==> WithinWindow(date, now)
  {
    if date.Some? {
      var x := (now - date.value) as real;
      assert x / 60000.0 > 15.0 <==> x > 900000.0;
    }
  }

  // ------------------------------------------------------------------ code

  /** `/\b\d{4,6}\b/` matches at `i`: a digit run that starts at a word
      boundary, has four to six digits and ends at a word boundary. A longer
      run never matches, since no boundary falls inside it. */
  function CodeAt(s: string, i: nat): (r: bool)
    ensures r <==> && i < |s| && (i == 0 || !IsWordChar(s[i - 1]))
                   && exists e :: BoundedRun(s, i, e)
  {
    && i < |s|
    && (DigitRunBounded(s, i); IsDigit(s[i]))
    && (i == 0 || !IsWordChar(s[i - 1]))
    && 4 <= DigitRunEnd(s, i) - i <= 6
    && (DigitRunEnd(s, i) < |s| ==> !IsWordChar(s[DigitRunEnd(s, i)]))
  }

  /** The greedy digit run from `i` has four to six digits and ends at a
      word boundary exactly when some such run does. */
  lemma DigitRunBounded(s: string, i: nat)
    requires i < |s|
    ensures (&& IsDigit(s[i]) && 4 <= DigitRunEnd(s, i) - i <= 6
             && (DigitRunEnd(s, i) < |s| ==> !IsWordChar(s[DigitRunEnd(s, i)]))) <==>
            exists e :: BoundedRun(s, i, e)
  {
    var d := DigitRunEnd(s, i);
    if IsDigit(s[i]) && 4 <= d - i <= 6 && (d < |s| ==> !IsWordChar(s[d])) {
      assert BoundedRun(s, i, d);
    }
    if exists e :: BoundedRun(s, i, e) {
      var e :| BoundedRun(s, i, e);
      DigitRunEndIs(s, i, e);
    }
  }

  /** `s[i..e]` is four to six digits followed by a word boundary. */
  predicate BoundedRun(s: string, i: nat, e: nat) {
    && i + 4 <= e <= i + 6 && e <= |s|
    && (forall k :: i <= k < e ==> IsDigit(s[k]))
    && (e < |s| ==> !IsWordChar(s[e]))
  }


  /** `CodeAt(s, _)` as a value. */
  function CodeTest(s: string): (r: nat -> bool)
    ensures forall i: nat :: r(i) == CodeAt(s, i)
  {
    (i: nat) => CodeAt(s, i)
  }

  /** `extractNetflixCode`'s match: the leftmost such run. */
  function ExtractCode(s: string): (r: Option<string>)
    ensures r.Some? ==> 4 <= |r.value| <= 6 && forall k :: 0 <= k < |r.value| ==> IsDigit(r.value[k])
    ensures r.None? <==> forall i :: 0 <= i < |s| ==> !CodeAt(s, i)
    ensures r.Some? ==> exists i :: 0 <= i < |s| && CodeAt(s, i) &&
                                    (forall j :: 0 <= j < i ==> !CodeAt(s, j)) &&
                                    r.value == s[i..DigitRunEnd(s, i)]
  {
    match LeftmostFrom(|s|, CodeTest(s), 0)
    case None => None
    case Some(i) => Some(s[i..DigitRunEnd(s, i)])
  }

  /** A four-to-six digit run `[i, e)` with word boundaries on both sides
      and no code starting before it is the code extracted. */
  lemma CodeIs(s: string, i: nat, e: nat)
    requires i + 4 <= e <= i + 6 && e <= |s|
    requires forall k :: 0 <= k < i ==> !CodeAt(s, k)
    requires forall k :: i <= k < e ==> IsDigit(s[k])
    requires i > 0 ==> !IsWordChar(s[i - 1])
    requires e < |s| ==> !IsWordChar(s[e])
    ensures ExtractCode(s) == Some(s[i..e])
  {
    DigitRunEndIs(s, i, e);
    assert CodeAt(s, i);
    LeftmostIs(|s|, CodeTest(s), 0, i);
  }

  /** A code of four to six digits, set off from the text around it and
      preceded by no digit, is the one extracted. */
  lemma CodeInSentence(pre: string, code: string, post: string)
    requires forall k :: 0 <= k < |pre| ==> !IsDigit(pre[k])
    requires pre == [] || !IsWordChar(pre[|pre| - 1])
    requires 4 <= |code| <= 6 && forall k :: 0 <= k < |code| ==> IsDigit(code[k])
    requires post == [] || !IsWordChar(post[0])
    ensures ExtractCode(pre + code + post) == Some(code)
  {
    var s := pre + code + post;
    var i := |pre|;
    var e := i + |code|;
    assert forall k :: 0 <= k < i ==> s[k] == pre[k];
    assert forall k :: i <= k < e ==> s[k] == code[k - i];
    assert e < |s| ==> s[e] == post[0];
    assert forall k :: 0 <= k < i ==> !CodeAt(s, k);
    CodeIs(s, i, e);
    assert s[i..e] == code;
  }

  /** A run of seven or more digits is never a code, wherever it starts. */
  lemma LongRunIsNoCode(s: string, i: nat)
    requires i + 7 <= |s| && forall k :: i <= k < i + 7 ==> IsDigit(s[k])
    ensures forall j :: i <= j <= i + 6 ==> !CodeAt(s, j)
  {
    forall j | i <= j <= i + 6 ensures !CodeAt(s, j) {
      if j > i {
        assert IsWordChar(s[j - 1]);
      } else {
        DigitRunCovers(s, j, j + 7);
      }
    }
  }

  // ----------------------------------------------------------------- store

  /** One value of `codes.json`; `emailDate` is the mail's time in
      milliseconds (serialised as `toISOString()`). */
  datatype CodeEntry = CodeEntry(code: string, expiresAt: int, emailDate: int)

  /** The codes `loadCodes` keeps: those whose `expiresAt` is not before `now`. */
  function LiveCodes(codes: map<string, CodeEntry>, now: int): (r: map<string, CodeEntry>)
    ensures forall e :: e in r <==> e in codes && codes[e].expiresAt >= now
    ensures forall e :: e in r ==> r[e] == codes[e]
  {
    map e | e in codes && codes[e].expiresAt >= now :: codes[e]
  }

  /** Loading twice at the same time removes nothing more, and a later load
      removes at least what an earlier one did. */
  lemma LiveCodesLater(codes: map<string, CodeEntry>, t1: int, t2: int)
    requires t1 <= t2
    ensures LiveCodes(LiveCodes(codes, t1), t2) == LiveCodes(codes, t2)
    ensures LiveCodes(codes, t2).Keys <= LiveCodes(codes, t1).Keys
  {
  }

  /** A stored code stays readable up to and including its `expiresAt`, and
      storing it leaves the other live entries as they were. */
  lemma StoredCodeReadableUntilExpiry(codes: map<string, CodeEntry>, email: string, entry: CodeEntry, t: int)
    requires t <= entry.expiresAt
    ensures email in LiveCodes(codes[email := entry], t) && LiveCodes(codes[email := entry], t)[email] == entry
    ensures forall e :: e != email ==> (e in LiveCodes(codes[email := entry], t) <==> e in LiveCodes(codes, t))
  {
  }

  /** `codes.json`: `readable` is false when the file is missing or does
      not parse, in which case `loadCodes` starts from `{}`. */
  class CodeFile {
    var readable: bool
    var entries: map<string, CodeEntry>

    constructor (readable: bool, entries: map<string, CodeEntry>)
      ensures this.readable == readable && this.entries == entries
    {
      this.readable := readable;
      this.entries := entries;
    }

    /** What `loadCodes` returns at time `now`. */
    function Loaded(now: int): (r: map<string, CodeEntry>)
      reads this
      ensures forall a :: a in r <==> readable && a in entries && entries[a].expiresAt >= now
      ensures forall a :: a in r ==> r[a] == entries[a]
    {
      if readable then LiveCodes(entries, now) else map[]
    }

    /** `loadCodes`: read the file and delete every entry that expired before `now`. */
    method LoadCodes(now: int) returns (codes: map<string, CodeEntry>)
      ensures codes == Loaded(now)
      ensures forall e :: e in codes ==> codes[e].expiresAt >= now
    {
      if !readable {
        return map[];
      }
      codes := entries;
      var keys := entries.Keys;
      while keys != {}
        invariant keys <= entries.Keys
        invariant codes.Keys <= entries.Keys
        invariant forall e :: e in codes ==> codes[e] == entries[e]
        invariant forall e :: e in entries ==> (e in codes <==> e in keys || entries[e].expiresAt >= now)
        decreases keys
      {
        var e :| e in keys;
        if codes[e].expiresAt < now {
          codes := codes - {e};
        }
        keys := keys - {e};
      }
    }

    /** `saveCodes`: the file now holds `codes`. */
    method SaveCodes(codes: map<string, CodeEntry>)
      modifies this
      ensures readable && entries == codes
    {
      readable := true;
      entries := codes;
    }
  }

  // --------------------------------------------------------------- handler

  /** The message of each error the controller throws. */
  datatype Failure =
    | EmailRequired | NoCodesFound | DateNotFound | CodeExpired | BodyNotFound
    | RecipientNotFound | Unauthorized | CodeNotFound | InvalidTimeValue

  function ErrorText(e: Failure): string {
    match e
    case EmailRequired => "Email is required"
    case NoCodesFound => "No Netflix codes found"
    case DateNotFound => "Email date not found"
    case CodeExpired => "The Netflix code has expired. Please request a new one."
    case BodyNotFound => "Email body not found"
    case RecipientNotFound => "Recipient email not found in the email headers"
    case Unauthorized => "Unauthorized email. The code was not sent to this email address."
    case CodeNotFound => "Netflix code not found"
    case InvalidTimeValue => "Invalid time value"
  }

  /** What `requestNetflixCode` gives back: an error, or the code with its
      expiry and the mail's time. */
  datatype Outcome = Failed(error: Failure) | Issued(code: string, expiresAt: int, emailDate: int)

  /** The decoded mail text. */
  function MailText(m: Message, lib: Library): string {
    lib.entities(lib.base64(PreferredBody(m, "text/plain", "text/html")))
  }

  /** The controller's answer when the search returned `ms` (newest first)
      at time `now`, the checks in source order. An unparsable date passes
      the age check and only fails when it is formatted, after the code was
      found and before anything is stored. */
  function SignIn(email: string, ms: seq<Message>, now: int, lib: Library): (r: Outcome)
    ensures r.Issued? ==>
              && email != "" && |ms| > 0
              && HeaderValue(ms[0].headers, "To") == Some(email)
              && HeaderValue(ms[0].headers, "Date").Some?
              && Some(r.emailDate) == lib.parseDate(HeaderValue(ms[0].headers, "Date").value)
              && now - r.emailDate <= FifteenMinutes
              && Some(r.code) == ExtractCode(MailText(ms[0], lib))
              && r.expiresAt == now + FifteenMinutes
    ensures r == Failed(EmailRequired) <==> email == ""
    ensures r == Failed(NoCodesFound) <==> email != "" && |ms| == 0
    ensures r == Failed(DateNotFound) <==> email != "" && |ms| > 0 && HeaderValue(ms[0].headers, "Date").None?
    ensures email != "" && |ms| > 0 && HeaderValue(ms[0].headers, "Date").Some? ==>
              var date := lib.parseDate(HeaderValue(ms[0].headers, "Date").value);
              var hasBody := PreferredBody(ms[0], "text/plain", "text/html") != "";
              && (r == Failed(CodeExpired) <==> !StillValid(date, now))
              && (r == Failed(BodyNotFound) <==> StillValid(date, now) && !hasBody)
    ensures email != "" && |ms| > 0 && HeaderValue(ms[0].headers, "Date").Some? ==>
              var date := lib.parseDate(HeaderValue(ms[0].headers, "Date").value);
              var to := HeaderValue(ms[0].headers, "To");
              var code := ExtractCode(MailText(ms[0], lib));
              StillValid(date, now) && PreferredBody(ms[0], "text/plain", "text/html") != "" ==>
                && (r == Failed(RecipientNotFound) <==> !Truthy(to))
                && (r == Failed(Unauthorized) <==> Truthy(to) && to.value != email)
                && (r == Failed(CodeNotFound) <==> to == Some(email) && code.None?)
                && (r == Failed(InvalidTimeValue) <==> to == Some(email) && code.Some? && date.None?)
                && (r.Issued? <==> to == Some(email) && code.Some? && date.Some?)
  {
    if email == "" then Failed(EmailRequired)
    else if |ms| == 0 then Failed(NoCodesFound)
    else
      var m := ms[0];
      var dateHeader := HeaderValue(m.headers, "Date");
      if dateHeader.None? then Failed(DateNotFound)
      else
        var date := lib.parseDate(dateHeader.value);
        if !StillValid(date, now) then Failed(CodeExpired)
        else if PreferredBody(m, "text/plain", "text/html") == "" then Failed(BodyNotFound)
        else
          var to := HeaderValue(m.headers, "To");
          if !Truthy(to) then Failed(RecipientNotFound)
          else if to.value != email then Failed(Unauthorized)
          else
            match ExtractCode(MailText(m, lib))
            case None => Failed(CodeNotFound)
            case Some(code) =>
              if date.None? then Failed(InvalidTimeValue)
              else Issued(code, now + FifteenMinutes, date.value)
  }

  /** `requestNetflixCode` at time `now` against the store `file`: on
      success the live codes of the file plus this request's code under
      `email` are saved; on any error the file is untouched. */
  method RequestNetflixCode(email: string, lib: Library, now: int, file: CodeFile) returns (r: Outcome)
    modifies file
    ensures r == SignIn(email, lib.search(Query(email)), now, lib)
    ensures r.Issued? ==>
              file.readable &&
              file.entries == old(file.Loaded(now))[email := CodeEntry(r.code, r.expiresAt, r.emailDate)]
    ensures !r.Issued? ==> file.readable == old(file.readable) && file.entries == old(file.entries)
  {
    if email == "" {
      return Failed(EmailRequired);
    }
    var ms := lib.search(Query(email));
    if |ms| == 0 {
      return Failed(NoCodesFound);
    }
    var message := ms[0];
    var dateHeader := HeaderValue(message.headers, "Date");
    if dateHeader.None? {
      return Failed(DateNotFound);
    }
    var date := lib.parseDate(dateHeader.value);
    if date.Some? && AgeInMinutes(now, date.value) > 15.0 {
      return Failed(CodeExpired);
    }
    var body := SelectBody(message, "text/plain", "text/html");
    if body == "" {
      return Failed(BodyNotFound);
    }
    var text := lib.entities(lib.base64(body));
    var to := HeaderValue(message.headers, "To");
    if !Truthy(to) {
      return Failed(RecipientNotFound);
    }
    if to.value != email {
      return Failed(Unauthorized);
    }
    var code := ExtractCode(text);
    if code.None? {
      return Failed(CodeNotFound);
    }
    var expiresAt := now + FifteenMinutes;
    var codes := file.LoadCodes(now);
    if date.None? {
      return Failed(InvalidTimeValue);
    }
    codes := codes[email := CodeEntry(code.value, expiresAt, date.value)];
    file.SaveCodes(codes);
    r := Issued(code.value, expiresAt, date.value);
  }

  /** The age check that lets a code through also bounds it: an issued code
      comes from a mail at most fifteen minutes old and stays readable in
      the store for fifteen minutes after the request. */
  lemma IssuedCodeIsFresh(email: string, ms: seq<Message>, now: int, lib: Library, codes: map<string, CodeEntry>, t: int)
    requires SignIn(email, ms, now, lib).Issued?
    requires t <= now + FifteenMinutes
    ensures var r := SignIn(email, ms, now, lib);
            var stored := codes[email := CodeEntry(r.code, r.expiresAt, r.emailDate)];
            && r.emailDate >= now - FifteenMinutes
            && email in LiveCodes(stored, t) && LiveCodes(stored, t)[email].code == r.code
  {
    var r := SignIn(email, ms, now, lib);
    StoredCodeReadableUntilExpiry(codes, email, CodeEntry(r.code, r.expiresAt, r.emailDate), t);
  }
}
