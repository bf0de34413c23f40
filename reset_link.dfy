/** The password-reset controller (`src/controllers/email.controllers.js`):
    find the newest reset mail sent to the requested address, check the
    recipient, pick the body, and extract the greeting and the reset link. */
module ResetLink {
  import opened Wrappers
  import opened Seqs
  import opened Text
  import opened Mail

  /** The subject of a reset mail in each supported language; the Spanish
      subject at indices 2 and 12 is listed twice. */
  const SubjectFilters: seq<string> := [
    "Complete your password reset request",
    "Complétez votre demande de réinitialisation de mot de passe",
    "Completa tu solicitud de restablecimiento de contraseña",
    "Completa la tua richiesta di reimpostazione della password",
    "Completa sua solicitação de redefinição de senha",
    "Vervollständige deine Anfrage zum Zurücksetzen deines Passworts",
    "قم بإكمال طلب إعادة تعيين كلمة المرور الخاصة بك",
    "パスワードリセットリクエストを完了してください",
    "비밀번호 재설정 요청을 완료하세요",
    "Şifre sıfırlama isteğinizi tamamlayın",
    "Selesaikan permintaanmu untuk mengatur ulang sandi",
    "Complete su solicitud para restablecer su contraseña",
    "Completa tu solicitud de restablecimiento de contraseña",
    "Réinitialisation de mot de passe à terminer"
  ]

  const Description: string := "Let's reset your password so you can get back to watching."

  /** The sender clause and the opening of the subject group. */
  const SenderClause: string := "from:(netflix.com OR netflix.net OR netflix.app) ("

  /** The text JavaScript's template literal gives an absent `req.body.email`. */
  function Interpolated(email: Option<string>): string {
    email.GetOr("undefined")
  }

  /** The search the controller runs: mail from the three sender domains
      with one of the subjects, sent to the requested recipient. */
  function Query(email: Option<string>): (r: string)
    ensures |SenderClause| <= |r| && r[..|SenderClause|] == SenderClause
    ensures email.Some? ==> |email.value| <= |r| && r[|r| - |email.value|..] == email.value
    ensures email.None? ==> 9 <= |r| && r[|r| - 9..] == "undefined"
  {
    SearchEndsWithRecipient(SenderClause, SubjectFilters, Interpolated(email));
    SearchQuery(SenderClause, SubjectFilters, Interpolated(email))
  }

  // ------------------------------------------------------------- recipient

  /** `email.trim().toLowerCase()` */
  function Normalize(e: string): string {
    ToLowerAscii(Trim(e))
  }

  /** The recipient check: the address part of the `To` value and the
      requested address agree after normalisation. */
  function SentTo(to: string, email: string): (r: bool)
    ensures Capture(to, "<", '>').Some? ==> (r <==> Normalize(Capture(to, "<", '>').value) == Normalize(email))
    ensures Capture(to, "<", '>').None? ==> (r <==> Normalize(to) == Normalize(email))
  {
    Normalize(BareAddress(to)) == Normalize(email)
  }

  /** Normalisation ignores surrounding white space. */
  lemma NormalizeIgnoresPadding(pre: string, e: string, post: string)
    requires AllSpace(pre) && AllSpace(post)
    ensures Normalize(pre + e + post) == Normalize(e)
  {
    TrimIgnoresPadding(pre, e, post);
  }

  /** Normalisation ignores letter case. */
  lemma NormalizeIgnoresCase(e: string)
    ensures Normalize(ToLowerAscii(e)) == Normalize(e)
  {
    TrimLower(e);
    ToLowerIdempotent(Trim(e));
  }

  /** A `Name <addr>` recipient is owned by whoever asks with `addr`, in any
      case and with any surrounding white space. */
  lemma SentToDisplayForm(name: string, addr: string, pre: string, post: string)
    requires '<' !in name && addr != [] && '>' !in addr
    requires AllSpace(pre) && AllSpace(post)
    ensures SentTo(name + "<" + addr + ">", pre + ToLowerAscii(addr) + post)
  {
    BareAddressOfNamedForm(name, addr);
    NormalizeIgnoresPadding(pre, ToLowerAscii(addr), post);
    NormalizeIgnoresCase(addr);
  }

  /** A plain recipient value is owned exactly by the requests that
      normalise to it. */
  lemma SentToPlain(to: string, email: string)
    requires '<' !in to
    ensures SentTo(to, email) <==> Normalize(to) == Normalize(email)
  {
    BareAddressOfPlain(to);
  }

  // -------------------------------------------------------------- greeting

  /** `/Hi\s+(\w+)/` matches at `i`: `Hi`, at least one white-space
      character, then a word character right after the white-space run. */
  predicate GreetingAt(s: string, i: nat) {
    && PrefixAt(s, i, "Hi")
    && i + 2 < |s| && IsJsSpace(s[i + 2])
    && SpaceRunEnd(s, i + 2) < |s| && IsWordChar(s[SpaceRunEnd(s, i + 2)])
  }

  /** The captured name of the leftmost greeting: the whole word that
      follows the white-space run. */
  function GreetingName(s: string): (r: Option<string>)
    ensures r.Some? ==> r.value != [] && forall k :: 0 <= k < |r.value| ==> IsWordChar(r.value[k])
    ensures r.None? <==> forall i :: 0 <= i < |s| ==> !GreetingAt(s, i)
    ensures r.Some? ==> exists i :: 0 <= i < |s| && GreetingAt(s, i) &&
                                    (forall j :: 0 <= j < i ==> !GreetingAt(s, j)) &&
                                    r.value == NameAt(s, i)
  {
    var at := (i: nat) => GreetingAt(s, i);
    assert forall i: nat :: at(i) == GreetingAt(s, i);
    match LeftmostFrom(|s|, at, 0)
    case None => None
    case Some(i) => Some(NameAt(s, i))
  }

  /** The word a greeting at `i` captures: the one after its white space. */
  function NameAt(s: string, i: nat): (r: string)
    requires i + 2 <= |s|
  {
    var w := SpaceRunEnd(s, i + 2);
    s[w..WordRunEnd(s, w)]
  }

  /** `Hi <name>,` when the text greets someone, `Hello,` otherwise. */
  function Greeting(s: string): (r: string)
    ensures r == "Hello," <==> GreetingName(s).None?
    ensures GreetingName(s).Some? ==> r == "Hi " + GreetingName(s).value + ","
  {
    match GreetingName(s)
    case None => "Hello,"
    case Some(n) =>
      HiIsNotHello(n);
      "Hi " + n + ","
  }

  /** The two greetings differ in their second letter. */
  lemma HiIsNotHello(n: string)
    ensures "Hi " + n + "," != "Hello,"
  {
    var g := "Hi " + n + ",";
    assert g[1] == ("Hi " + n)[1] == 'i';
  }

  /** A text that opens with `Hi`, a white-space run `[2, w)` and a word
      `[w, e)` is greeted by that word. */
  lemma LeadingGreeting(s: string, w: nat, e: nat)
    requires 2 < w < e <= |s| && s[0] == 'H' && s[1] == 'i'
    requires forall k :: 2 <= k < w ==> IsJsSpace(s[k])
    requires forall k :: w <= k < e ==> IsWordChar(s[k])
    requires e < |s| ==> !IsWordChar(s[e])
    ensures GreetingName(s) == Some(s[w..e])
  {
    SpaceRunEndIs(s, 2, w);
    assert s[0..2] == "Hi";
    assert GreetingAt(s, 0);
    WordRunEndIs(s, w, e);
  }

  /** `Hi`, white space, a word and anything not continuing the word: the
      greeting names that word. */
  lemma GreetingOfSalutation(sp: string, name: string, rest: string)
    requires sp != [] && AllSpace(sp)
    requires name != [] && forall k :: 0 <= k < |name| ==> IsWordChar(name[k])
    requires rest == [] || !IsWordChar(rest[0])
    ensures Greeting("Hi" + sp + name + rest) == "Hi " + name + ","
  {
    var s := "Hi" + sp + name + rest;
    var w := 2 + |sp|;
    var e := w + |name|;
    assert forall k :: 2 <= k < w ==> s[k] == sp[k - 2];
    assert forall k :: w <= k < e ==> s[k] == name[k - w];
    assert e < |s| ==> s[e] == rest[0];
    LeadingGreeting(s, w, e);
    assert s[w..e] == name;
  }

  // ------------------------------------------------------------ reset link

  predicate MentionsReset(a: Anchor) {
    Includes(a.text, "Reset password")
  }

  predicate IsPasswordLink(a: Anchor) {
    Truthy(a.href) && Includes(a.href.value, "netflix.com/password")
  }

  /** `$('a:contains("Reset password")').attr("href")`: the `href` of the
      first anchor whose text contains the phrase. */
  function LinkByText(anchors: seq<Anchor>): (r: Option<string>)
    ensures r.Some? ==> exists i :: 0 <= i < |anchors| && MentionsReset(anchors[i]) && anchors[i].href == r &&
                                    forall j :: 0 <= j < i ==> !MentionsReset(anchors[j])
    ensures r.None? <==>
              || FirstIndex(anchors, MentionsReset).None?
              || anchors[FirstIndex(anchors, MentionsReset).value].href.None?
  {
    match FirstIndex(anchors, MentionsReset)
    case None => None
    case Some(i) => anchors[i].href
  }

  /** The link the controller returns: the link found by text when it is
      non-empty, otherwise the first non-empty `href` pointing at
      `netflix.com/password`, otherwise whatever the text search gave. */
  function ChosenLink(anchors: seq<Anchor>): (r: Option<string>)
    ensures Truthy(LinkByText(anchors)) ==> r == LinkByText(anchors)
    ensures !Truthy(LinkByText(anchors)) ==>
              (r == LinkByText(anchors) <==> forall i :: 0 <= i < |anchors| ==> !IsPasswordLink(anchors[i]))
    ensures r != LinkByText(anchors) ==>
              exists i :: 0 <= i < |anchors| && IsPasswordLink(anchors[i]) && r == anchors[i].href &&
                          forall j :: 0 <= j < i ==> !IsPasswordLink(anchors[j])
  {
    var byText := LinkByText(anchors);
    if Truthy(byText) then byText
    else
      match FirstIndex(anchors, IsPasswordLink)
      case None => byText
      case Some(i) => anchors[i].href
  }

  /** `extractResetLinkFromHTML`: the text search, then the scan over all
      links with an early return. */
  method ExtractResetLinkFromHtml(html: string, lib: Library) returns (link: Option<string>)
    ensures link == ChosenLink(lib.anchors(html))
  {
    var anchors := lib.anchors(html);
    link := LinkByText(anchors);
    if !Truthy(link) {
      var i := 0;
      while i < |anchors|
        invariant 0 <= i <= |anchors|
        invariant forall j :: 0 <= j < i ==> !IsPasswordLink(anchors[j])
      {
        if IsPasswordLink(anchors[i]) {
          FirstIndexIs(anchors, IsPasswordLink, i);
          return anchors[i].href;
        }
        i := i + 1;
      }
      assert FirstIndex(anchors, IsPasswordLink) == None;
    }
  }

  // --------------------------------------------------------------- handler

  /** `{ greeting, description, resetLink }` */
  datatype Content = Content(greeting: string, description: string, resetLink: Option<string>)

  /** Why the controller refuses, one kind per error reply. */
  datatype Refusal = NoMatchingEmail | NoRecipient | Unauthorized | NoBody | ServerError

  /** The HTTP status of each refusal. */
  function Status(e: Refusal): (r: int)
    ensures r == 404 <==> e == NoMatchingEmail || e == NoRecipient || e == NoBody
    ensures r == 403 <==> e == Unauthorized
    ensures r == 500 <==> e == ServerError
  {
    match e
    case NoMatchingEmail => 404
    case NoRecipient => 404
    case Unauthorized => 403
    case NoBody => 404
    case ServerError => 500
  }

  /** The `error` text sent with each refusal. */
  function ErrorText(e: Refusal): string {
    match e
    case NoMatchingEmail => "No matching emails found"
    case NoRecipient => "Recipient email not found in the email headers."
    case Unauthorized => "Unauthorized email. The email was not sent to this address."
    case NoBody => "Email body not found"
    case ServerError => "Failed to fetch email"
  }

  /** The controller's reply: a refusal, or the extracted content (200). */
  datatype Reply = Refused(reason: Refusal) | Extracted(content: Content)

  /** `extractRelevantContent` over the decoded mail text. */
  function RelevantContent(text: string, lib: Library): (r: Content)
    ensures r.description == Description
    ensures r.greeting == Greeting(text)
    ensures r.resetLink == ChosenLink(lib.anchors(text))
  {
    Content(Greeting(text), Description, ChosenLink(lib.anchors(text)))
  }

  /** What `getFilteredEmails` answers when the search returned `ms`
      (newest first) for a request body carrying `email`, the checks in
      source order. An absent `email` makes `email.trim()` throw, which the
      catch turns into a 500. */
  function Respond(ms: seq<Message>, email: Option<string>, lib: Library): (r: Reply)
    ensures r.Extracted? ==>
              && |ms| > 0 && email.Some?
              && Truthy(HeaderValue(ms[0].headers, "To"))
              && SentTo(HeaderValue(ms[0].headers, "To").value, email.value)
              && PreferredBody(ms[0], "text/html", "text/plain") != ""
    ensures r == Refused(NoMatchingEmail) <==> |ms| == 0
    ensures r == Refused(Unauthorized) <==>
              |ms| > 0 && email.Some? && Truthy(HeaderValue(ms[0].headers, "To")) &&
              !SentTo(HeaderValue(ms[0].headers, "To").value, email.value)
    ensures |ms| > 0 ==>
              var to := HeaderValue(ms[0].headers, "To");
              var body := PreferredBody(ms[0], "text/html", "text/plain");
              && (r == Refused(NoRecipient) <==> !Truthy(to))
              && (r == Refused(ServerError) <==> Truthy(to) && email.None?)
              && (r == Refused(NoBody) <==> Truthy(to) && email.Some? && SentTo(to.value, email.value) && body == "")
              && (r.Extracted? <==> Truthy(to) && email.Some? && SentTo(to.value, email.value) && body != "")
    ensures r.Extracted? ==>
              var text := lib.entities(lib.base64url(PreferredBody(ms[0], "text/html", "text/plain")));
              && r.content.greeting == Greeting(text)
              && r.content.description == Description
              && r.content.resetLink == ChosenLink(lib.anchors(text))
  {
    if |ms| == 0 then Refused(NoMatchingEmail)
    else
      var to := HeaderValue(ms[0].headers, "To");
      if !Truthy(to) then Refused(NoRecipient)
      else if email.None? then Refused(ServerError)
      else if !SentTo(to.value, email.value) then Refused(Unauthorized)
      else
        var body := PreferredBody(ms[0], "text/html", "text/plain");
        if body == "" then Refused(NoBody)
        else Extracted(RelevantContent(lib.entities(lib.base64url(body)), lib))
  }

  /** The handler for a request body carrying `email`, with its two loops;
      only the newest matching message is read. */
  method GetFilteredEmails(email: Option<string>, lib: Library) returns (r: Reply)
    ensures r == Respond(lib.search(Query(email)), email, lib)
  {
    var ms := lib.search(Query(email));
    if |ms| == 0 {
      return Refused(NoMatchingEmail);
    }
    var message := ms[0];
    var to := HeaderValue(message.headers, "To");
    if !Truthy(to) {
      return Refused(NoRecipient);
    }
    if email.None? {
      return Refused(ServerError);
    }
    if Normalize(BareAddress(to.value)) != Normalize(email.value) {
      return Refused(Unauthorized);
    }
    var body := SelectBody(message, "text/html", "text/plain");
    if body == "" {
      return Refused(NoBody);
    }
    var text := lib.entities(lib.base64url(body));
    var link := ExtractResetLinkFromHtml(text, lib);
    r := Extracted(Content(Greeting(text), Description, link));
  }
}
