/** The household-verification controller
    (`src/controllers/household.controllers.js`): find the newest household
    mail, check recipient and age, and extract the link of its
    call-to-action button. */
module Household {
  import opened Wrappers
  import opened Seqs
  import opened Text
  import opened Mail

  /** The subjects searched for, in source order: the empty subject and the
      repeated ones included. */
  const Subjects: seq<string> := [
    "Kode akses sementara Netflix-mu",
    "Kode akses sementaramu",
    "Tu código de acceso temporal",
    "Tu código de acceso temporal de Netflix",
    "Importante: Cómo actualizar tu Hogar con Netflix",
    "",
    "Kode akses sementara Netflix-mu",
    "ข้อมูลสำคัญ: วิธีอัปเดตครัวเรือน Netflix",
    "รหัสการเข้าถึงชั่วคราวของ Netflix ของคุณ",
    "Penting: Cara memperbarui Rumah dengan Akun Netflix-mu",
    "Tu código de acceso temporal de Netflix",
    "Important\U{00A0}: Comment mettre à jour votre foyer Netflix",
    "Votre code d'accès temporaire Netflix",
    "Important: How to update your Netflix household",
    "Your Netflix temporary access code"
  ]

  /** The search: the subject alternatives only, with no sender and no
      recipient clause. */
  function Query(): (r: string)
    ensures forall k :: 0 <= k < |Subjects| ==> Includes(r, SubjectClause(Subjects[k]))
  {
    SubjectQueryIncludesEach(Subjects);
    SubjectQuery(Subjects)
  }

  /** The button labels of the call-to-action regex, in its alternation
      order (the French label appears twice). */
  const CtaPhrases: seq<string> := [
    "Yes, this was me", "Get Code", "Dapatkan Kode", "Ya, Ini Aku",
    "Oui, c'était moi", "Obtenir le code", "Sí, la envié yo", "Obtener código",
    "Ya, Itu Saya", "Sí, fui yo", "รับรหัส", "ใช่แล้ว นี่คือฉัน", "Oui, c'était moi"
  ]

  // ------------------------------------------------------------ CTA button

  /** The test "label `p` followed by `</a>` starts at `at`", case-insensitively. */
  function ClosesWith(s: string, at: nat): (r: string -> bool)
    ensures forall p :: r(p) == FoldPrefixAt(s, at, p + "</a>")
  {
    p => FoldPrefixAt(s, at, p + "</a>")
  }

  /** Where `/<a[^>]*>(label|…)<\/a>/i` ends when it starts at `i`: `<a`,
      everything up to the first `>` (the run `[^>]*` cannot pass one), then
      the first label in alternation order that is followed by `</a>`. */
  function ButtonEndAt(s: string, i: nat, phrases: seq<string>): (r: Option<nat>)
    ensures r.Some? ==> FoldPrefixAt(s, i, "<a") && i + 2 < r.value <= |s|
    ensures r.Some? ==>
              && NextIndexOf(s, '>', i + 2).Some?
              && var g := NextIndexOf(s, '>', i + 2).value;
                 exists k :: 0 <= k < |phrases| && FoldPrefixAt(s, g + 1, phrases[k] + "</a>") &&
                             (forall j :: 0 <= j < k ==> !FoldPrefixAt(s, g + 1, phrases[j] + "</a>")) &&
                             r.value == g + 1 + |phrases[k]| + 4
    ensures r.None? <==>
              || !FoldPrefixAt(s, i, "<a")
              || NextIndexOf(s, '>', i + 2).None?
              || forall j :: 0 <= j < |phrases| ==> !FoldPrefixAt(s, NextIndexOf(s, '>', i + 2).value + 1, phrases[j] + "</a>")
  {
    if !FoldPrefixAt(s, i, "<a") then None
    else
      match NextIndexOf(s, '>', i + 2)
      case None => None
      case Some(g) =>
        match FirstIndex(phrases, ClosesWith(s, g + 1))
        case None => None
        case Some(k) => Some(g + 1 + |phrases[k] + "</a>"|)
  }

  /** `ButtonEndAt(s, _, phrases).Some?` as a value. */
  function ButtonTest(s: string, phrases: seq<string>): (r: nat -> bool)
    ensures forall i: nat :: r(i) == ButtonEndAt(s, i, phrases).Some?
  {
    (i: nat) => ButtonEndAt(s, i, phrases).Some?
  }

  /** `match[0]`: the text of the leftmost button match. */
  function ButtonMatch(s: string, phrases: seq<string>): (r: Option<string>)
    ensures r.Some? ==> exists i :: 0 <= i < |s| && ButtonEndAt(s, i, phrases).Some? &&
                                    r.value == s[i..ButtonEndAt(s, i, phrases).value] &&
                                    forall j :: 0 <= j < i ==> ButtonEndAt(s, j, phrases).None?
    ensures r.None? <==> forall i :: 0 <= i < |s| ==> ButtonEndAt(s, i, phrases).None?
  {
    match LeftmostFrom(|s|, ButtonTest(s, phrases), 0)
    case None => None
    case Some(i) => Some(s[i..ButtonEndAt(s, i, phrases).value])
  }

  /** The verification link: `href="…"` inside the button match. */
  function LinkIn(s: string, phrases: seq<string>): (r: Option<string>)
    ensures r.Some? ==> r.value != [] && '"' !in r.value
    ensures r.Some? ==> ButtonMatch(s, phrases).Some?
    ensures ButtonMatch(s, phrases).Some? ==> r == Capture(ButtonMatch(s, phrases).value, "href=\"", '"')
    ensures r.None? <==>
              || ButtonMatch(s, phrases).None?
              || forall k :: CaptureEnd(ButtonMatch(s, phrases).value, k, "href=\"", '"').None?
  {
    match ButtonMatch(s, phrases)
    case None => None
    case Some(m) => Capture(m, "href=\"", '"')
  }

  /** The link the controller extracts from a decoded body. */
  function VerificationLink(body: string): (r: Option<string>)
    ensures r.Some? ==> r.value != [] && '"' !in r.value
    ensures ButtonMatch(body, CtaPhrases).Some? ==> r == Capture(ButtonMatch(body, CtaPhrases).value, "href=\"", '"')
    ensures r.None? <==>
              || ButtonMatch(body, CtaPhrases).None?
              || forall k :: CaptureEnd(ButtonMatch(body, CtaPhrases).value, k, "href=\"", '"').None?
  {
    LinkIn(body, CtaPhrases)
  }

  /** Only the first button counts: when the leftmost button anchor has no
      `href`, no link is found, whatever buttons follow it. */
  lemma FirstButtonWithoutHref(pre: string, rest: string, phrases: seq<string>, k: nat)
    requires '<' !in pre
    requires k < |phrases| && forall j :: 0 <= j < |phrases| ==> '"' !in phrases[j]
    ensures LinkIn(pre + "<a>" + phrases[k] + "</a>" + rest, phrases) == None
  {
    var closing := phrases[k] + "</a>";
    var tail := closing + rest;
    var s := pre + "<a>" + tail;
    assert s == pre + "<a>" + phrases[k] + "</a>" + rest;
    var i := |pre|;
    assert tail[0..|closing|] == closing;
    TagStart(pre, "<a>", tail, phrases);
    assert s[i + 2] == '>';
    NextIndexOfIs(s, '>', i + 2, i + 2);
    ClosingLabel(pre + "<a>", tail, phrases, k);
    ButtonEndAfterTag(s, i, i + 2, phrases);
    ButtonMatchAt(s, i, phrases);
    assert s[i..i + 3] == "<a>";
    UnquotedButton(s, i, phrases);
  }

  /** A button match of `<a>` and a label, where no label holds `"`, has no
      `href="…"`. */
  lemma UnquotedButton(s: string, i: nat, phrases: seq<string>)
    requires i + 3 <= |s| && s[i..i + 3] == "<a>"
    requires ButtonEndAt(s, i, phrases).Some?
    requires forall j :: 0 <= j < |phrases| ==> '"' !in phrases[j]
    ensures Capture(s[i..ButtonEndAt(s, i, phrases).value], "href=\"", '"') == None
  {
    assert NextIndexOf(s, '>', i + 2) == Some(i + 2);
    var e := ButtonEndAt(s, i, phrases).value;
    var k :| 0 <= k < |phrases| && FoldPrefixAt(s, i + 3, phrases[k] + "</a>") &&
             e == i + 3 + |phrases[k]| + 4;
    var p := phrases[k] + "</a>";
    assert '"' !in p by {
      assert forall x :: 0 <= x < |p| ==> p[x] == if x < |phrases[k]| then phrases[k][x] else "</a>"[x - |phrases[k]|];
    }
    UnquotedMatch(s, i, p);
    var m := s[i..e];
    assert forall x :: 0 <= x < |m| ==> m[x] == s[i + x];
  }

  /** The text of a match `<a>` + label, where the label with no `"` was
      matched ignoring case, holds no `"` either. */
  lemma UnquotedMatch(s: string, i: nat, p: string)
    requires i + 3 <= |s| && s[i..i + 3] == "<a>"
    requires FoldPrefixAt(s, i + 3, p) && '"' !in p
    ensures forall x :: i <= x < i + 3 + |p| ==> s[x] != '"'
  {
    forall x | i + 3 <= x < i + 3 + |p| ensures s[x] != '"' {
      assert ToLowerAscii(s[i + 3..i + 3 + |p|])[x - i - 3] == LowerAscii(s[x]);
      assert ToLowerAscii(p)[x - i - 3] == LowerAscii(p[x - i - 3]);
      assert p[x - i - 3] in p;
    }
    forall x | i <= x < i + 3 ensures s[x] != '"' {
      assert s[i..i + 3][x - i] == s[x];
    }
  }

  /** The labels of the controller's regex hold no `"`. */
  lemma CtaPhrasesUnquoted()
    ensures forall j :: 0 <= j < |CtaPhrases| ==> '"' !in CtaPhrases[j]
  {
  }

  /** `FirstButtonWithoutHref` for the controller's own labels. */
  lemma FirstCtaWithoutHref(pre: string, rest: string, k: nat)
    requires '<' !in pre && k < |CtaPhrases|
    ensures VerificationLink(pre + "<a>" + CtaPhrases[k] + "</a>" + rest) == None
  {
    CtaPhrasesUnquoted();
    FirstButtonWithoutHref(pre, rest, CtaPhrases, k);
  }

  /** The opening tag `<a href="url">`. */
  function Tag(url: string): (r: string)
    ensures |r| == |url| + 11
    ensures forall k :: 9 <= k < 9 + |url| ==> r[k] == url[k - 9]
  {
    "<a href=\"" + url + "\">"
  }

  /** The tag `<a href="url">` followed by a listed label and `</a>`, with no
      `<` before it, yields `url`. */
  lemma LinkOfButton(pre: string, url: string, rest: string, phrases: seq<string>, k: nat)
    requires '<' !in pre
    requires url != [] && '"' !in url && '>' !in url
    requires k < |phrases| && FoldPrefixAt(rest, 0, phrases[k] + "</a>")
    ensures LinkIn(pre + Tag(url) + rest, phrases) == Some(url)
  {
    var tag := Tag(url);
    var s := pre + tag + rest;
    var i := |pre|;
    TagStart(pre, tag, rest, phrases);
    TagCloses(pre, url, rest);
    ClosingLabel(pre + tag, rest, phrases, k);
    ButtonEndAfterTag(s, i, i + |tag| - 1, phrases);
    ButtonMatchAt(s, i, phrases);
    var e := ButtonEndAt(s, i, phrases).value;
    MiddleStartsSlice(pre, tag, rest, e);
    HrefOfTag(s[i..e], url);
  }

  /** A slice that starts where the middle operand starts begins with it. */
  lemma MiddleStartsSlice(pre: string, mid: string, rest: string, e: nat)
    requires |pre| + |mid| <= e <= |pre| + |mid| + |rest|
    ensures var m := (pre + mid + rest)[|pre|..e];
            |mid| <= |m| && forall j :: 0 <= j < |mid| ==> m[j] == mid[j]
  {
  }

  /** A tag closed at `g` and followed by a listed label ends a match after `g`. */
  lemma ButtonEndAfterTag(s: string, i: nat, g: nat, phrases: seq<string>)
    requires FoldPrefixAt(s, i, "<a") && NextIndexOf(s, '>', i + 2) == Some(g)
    requires FirstIndex(phrases, ClosesWith(s, g + 1)).Some?
    ensures ButtonEndAt(s, i, phrases).Some? && ButtonEndAt(s, i, phrases).value > g
  {
  }

  /** The first index where the button matches gives the match text. */
  lemma ButtonMatchAt(s: string, i: nat, phrases: seq<string>)
    requires ButtonEndAt(s, i, phrases).Some?
    requires forall j :: 0 <= j < i ==> ButtonEndAt(s, j, phrases).None?
    ensures ButtonMatch(s, phrases) == Some(s[i..ButtonEndAt(s, i, phrases).value])
  {
    var p := ButtonTest(s, phrases);
    LeftmostIs(|s|, p, 0, i);
  }

  /** A tag that starts after a `<`-free prefix is where the leftmost
      button match starts, if it matches at all. */
  lemma TagStart(pre: string, tag: string, rest: string, phrases: seq<string>)
    requires '<' !in pre && |tag| >= 2 && tag[0] == '<' && tag[1] == 'a'
    ensures FoldPrefixAt(pre + tag + rest, |pre|, "<a")
    ensures forall j :: 0 <= j < |pre| ==> ButtonEndAt(pre + tag + rest, j, phrases).None?
  {
    var s := pre + tag + rest;
    assert s[|pre|..|pre| + 2] == tag[..2];
    forall j | 0 <= j < |pre| ensures !FoldPrefixAt(s, j, "<a") {
      assert s[j] == pre[j];
      assert pre[j] in pre;
      if j + 2 <= |s| {
        assert ToLowerAscii(s[j..j + 2])[0] == LowerAscii(s[j]);
      }
    }
  }

  /** In `<a href="url">` the first `>` after `<a` is the last character. */
  lemma TagCloses(pre: string, url: string, rest: string)
    requires '>' !in url
    ensures NextIndexOf(pre + Tag(url) + rest, '>', |pre| + 2) == Some(|pre| + |Tag(url)| - 1)
  {
    var tag := Tag(url);
    var s := pre + tag + rest;
    var i := |pre|;
    assert forall k :: i <= k < i + |tag| ==> s[k] == tag[k - i];
    forall k | i + 2 <= k < i + |tag| - 1 ensures s[k] != '>' {
      if k - i >= 9 && k - i < 9 + |url| {
        assert url[k - i - 9] in url;
      }
    }
    NextIndexOfIs(s, '>', i + 2, i + |tag| - 1);
  }

  /** A listed label followed by `</a>` right after the tag closes the match. */
  lemma ClosingLabel(head: string, rest: string, phrases: seq<string>, k: nat)
    requires k < |phrases| && FoldPrefixAt(rest, 0, phrases[k] + "</a>")
    ensures FirstIndex(phrases, ClosesWith(head + rest, |head|)).Some?
  {
    var p := phrases[k] + "</a>";
    assert (head + rest)[|head|..|head| + |p|] == rest[0..|p|];
    assert ClosesWith(head + rest, |head|)(phrases[k]);
  }

  /** The `href` value of a match that starts with `<a href="url">`. */
  lemma HrefOfTag(m: string, url: string)
    requires url != [] && '"' !in url
    requires |Tag(url)| <= |m| && forall j :: 0 <= j < |Tag(url)| ==> m[j] == Tag(url)[j]
    ensures Capture(m, "href=\"", '"') == Some(url)
  {
    var tag := Tag(url);
    assert m[0] == '<' && m[1] == 'a' && m[2] == ' ' && m[3..9] == "href=\"";
    assert forall k :: 9 <= k < 9 + |url| ==> m[k] == url[k - 9];
    assert m[9 + |url|] == '"';
    forall k | 9 <= k < 9 + |url| ensures m[k] != '"' {
      assert url[k - 9] in url;
    }
    NextIndexOfIs(m, '"', 9, 9 + |url|);
    assert PrefixAt(m, 3, "href=\"");
    forall j | 0 <= j < 3 ensures !PrefixAt(m, j, "href=\"") {
      assert m[j] != 'h';
      if j + 6 <= |m| {
        assert m[j..j + 6][0] == m[j];
      }
    }
    FirstCaptureAt(m, "href=\"", '"', 0, 3);
    assert m[9..9 + |url|] == url;
  }

  // --------------------------------------------------------------- handler

  /** Why the controller refuses, one kind per error reply. */
  datatype Refusal =
    | EmailRequired | NoRelevantEmail | NoRecipient | Unauthorized
    | LinkExpired | NoContent | NoLink | ServerError

  /** The HTTP status of each refusal. */
  function Status(e: Refusal): (r: int)
    ensures r == 400 <==> e == EmailRequired || e == LinkExpired
    ensures r == 404 <==> e == NoRelevantEmail || e == NoRecipient || e == NoContent || e == NoLink
    ensures r == 403 <==> e == Unauthorized
    ensures r == 500 <==> e == ServerError
  {
    match e
    case EmailRequired => 400
    case NoRelevantEmail => 404
    case NoRecipient => 404
    case Unauthorized => 403
    case LinkExpired => 400
    case NoContent => 404
    case NoLink => 404
    case ServerError => 500
  }

  /** The `message` text sent with each refusal. */
  function ErrorText(e: Refusal): string {
    match e
    case EmailRequired => "Email is required."
    case NoRelevantEmail => "No relevant email found!"
    case NoRecipient => "Recipient email not found."
    case Unauthorized => "Unauthorized email."
    case LinkExpired => "The email link has expired. Please request again."
    case NoContent => "No email content found!"
    case NoLink => "Verification link not found!"
    case ServerError => "Internal server error"
  }

  /** The reply: a refusal, or (200) the requester, the link and the mail's
      time (`None` when the date does not parse; formatting is left out). */
  datatype Reply = Refused(reason: Refusal) | Verified(requesterEmail: string, verificationLink: string, receivedAt: Option<int>)

  /** The date the controller reads: the `Date` header, or `Unknown Date`. */
  function MailDate(m: Message, lib: Library): Option<int> {
    lib.parseDate(HeaderOr(m.headers, "Date", "Unknown Date"))
  }

  /** What `getHouseholdNetflixEmail` answers for `email` at time `now` when
      the search returned `ms` (newest first), the checks in source order. */
  function Respond(email: string, ms: seq<Message>, now: int, lib: Library): (r: Reply)
    ensures r.Verified? ==>
              && email != "" && |ms| > 0 && r.requesterEmail == email
              && Truthy(HeaderValue(ms[0].headers, "To"))
              && BareAddress(HeaderValue(ms[0].headers, "To").value) == email
              && WithinWindow(MailDate(ms[0], lib), now)
              && FirstHtmlRead(ms[0].parts, lib.base64).Decoded?
              && VerificationLink(FirstHtmlRead(ms[0].parts, lib.base64).text) == Some(r.verificationLink)
    ensures r == Refused(Unauthorized) <==>
              && email != "" && |ms| > 0
              && Truthy(HeaderValue(ms[0].headers, "To"))
              && BareAddress(HeaderValue(ms[0].headers, "To").value) != email
    ensures r == Refused(EmailRequired) <==> email == ""
    ensures r == Refused(NoRelevantEmail) <==> email != "" && |ms| == 0
    ensures r == Refused(NoRecipient) <==> email != "" && |ms| > 0 && !Truthy(HeaderValue(ms[0].headers, "To"))
    ensures email != "" && |ms| > 0 && AddressedTo(ms[0], email) ==>
              var recent := WithinWindow(MailDate(ms[0], lib), now);
              var read := FirstHtmlRead(ms[0].parts, lib.base64);
              && (r == Refused(LinkExpired) <==> !recent)
              && (r == Refused(ServerError) <==> recent && read.Crashed?)
              && (r == Refused(NoContent) <==> recent && read == Decoded(""))
              && (r == Refused(NoLink) <==> recent && read.Decoded? && read.text != "" && VerificationLink(read.text).None?)
              && (r.Verified? <==> recent && read.Decoded? && read.text != "" && VerificationLink(read.text).Some?)
    ensures r.Verified? ==> r.receivedAt == MailDate(ms[0], lib)
  {
    if email == "" then Refused(EmailRequired)
    else if |ms| == 0 then Refused(NoRelevantEmail)
    else
      var m := ms[0];
      var to := HeaderValue(m.headers, "To");
      if !Truthy(to) then Refused(NoRecipient)
      else if BareAddress(to.value) != email then Refused(Unauthorized)
      else
        var date := MailDate(m, lib);
        if !WithinWindow(date, now) then Refused(LinkExpired)
        else
          match FirstHtmlRead(m.parts, lib.base64)
          case Crashed => Refused(ServerError)
          case Decoded(body) =>
            if body == "" then Refused(NoContent)
            else
              match VerificationLink(body)
              case None => Refused(NoLink)
              case Some(link) => Verified(email, link, date)
  }

  /** A mail without a `Date` header is never refused as expired: the
      fallback text `Unknown Date` does not parse, and an unparsable date
      passes the age check. */
  lemma MissingDateNeverExpires(email: string, ms: seq<Message>, now: int, lib: Library)
    requires |ms| > 0 && !Truthy(HeaderValue(ms[0].headers, "Date"))
    requires lib.parseDate("Unknown Date") == None
    ensures Respond(email, ms, now, lib) != Refused(LinkExpired)
  {
    assert HeaderOr(ms[0].headers, "Date", "Unknown Date") == "Unknown Date";
    assert !(MailDate(ms[0], lib)).Some?;
  }

  /** The handler: the e-mail check and the search, then the newest message. */
  method GetHouseholdNetflixEmail(email: string, lib: Library, now: int) returns (r: Reply)
    ensures r == Respond(email, lib.search(Query()), now, lib)
  {
    if email == "" {
      return Refused(EmailRequired);
    }
    var ms := lib.search(Query());
    r := AnswerWith(email, ms, now, lib);
  }

  /** The handler's steps after the search, with its part loop. */
  method AnswerWith(email: string, ms: seq<Message>, now: int, lib: Library) returns (r: Reply)
    requires email != ""
    ensures r == Respond(email, ms, now, lib)
  {
    if |ms| == 0 {
      return Refused(NoRelevantEmail);
    }
    var message := ms[0];
    var to := HeaderValue(message.headers, "To");
    if !Truthy(to) {
      return Refused(NoRecipient);
    }
    if BareAddress(to.value) != email {
      return Refused(Unauthorized);
    }
    var date := MailDate(message, lib);
    if date.Some? && now - date.value > FifteenMinutes {
      return Refused(LinkExpired);
    }
    var read := ReadFirstHtmlPart(message.parts, lib.base64);
    if read.Crashed? {
      return Refused(ServerError);
    }
    if read.text == "" {
      return Refused(NoContent);
    }
    var link := VerificationLink(read.text);
    if link.None? {
      return Refused(NoLink);
    }
    r := Verified(email, link.value, date);
  }

  /** The search names every listed subject as its own clause. */
  lemma QueryNamesEverySubject(k: nat)
    requires k < |Subjects|
    ensures var o := ClauseOffset(Subjects, k);
            var c := SubjectClause(Subjects[k]);
            o + |c| <= |Query()| && Query()[o..o + |c|] == c
  {
    SubjectQueryListsEachSubject(Subjects, k);
  }
}
