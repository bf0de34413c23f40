/** The fetched Gmail message as the controllers see it, the library calls
    they make (as opaque total functions), and the request-handling fragments
    that several controllers share verbatim. */
module Mail {
  import opened Wrappers
  import opened Seqs
  import opened Text

  /** One entry of `payload.headers`. */
  datatype Header = Header(name: string, value: string)

  /** One entry of `payload.parts`: its `mimeType` and its `body.data`
      (still transport-encoded; absent when Gmail leaves it out). */
  datatype Part = Part(mimeType: string, data: Option<string>)

  /** A message returned by `messages.get`: the header list, the top-level
      part list (absent for a single-part message) and `payload.body.data`. */
  datatype Message = Message(headers: seq<Header>, parts: Option<seq<Part>>, bodyData: Option<string>)

  /** One `<a>` element of a page loaded into cheerio: its text content and
      its `href` attribute. */
  datatype Anchor = Anchor(text: string, href: Option<string>)

  /** The library and service calls the controllers make, none of which is
      modelled here:
      - `search(q)`: `messages.list` with query `q`, then `messages.get` of the
        listed ids, newest first (an empty sequence when nothing matches);
      - `base64`/`base64url`: `Buffer.from(d, enc).toString("utf-8")`;
      - `entities`: html-entities' `decode`;
      - `parseDate(v)`: `new Date(v).getTime()`, `None` when that is `NaN`;
      - `anchors(html)`: the `<a>` elements cheerio finds in `html`, in document order. */
  datatype Library = Library(
    search: string -> seq<Message>,
    base64: string -> string,
    base64url: string -> string,
    entities: string -> string,
    parseDate: string -> Option<int>,
    anchors: string -> seq<Anchor>)

  /** `15 * 60 * 1000`: the freshness window and the code lifetime, in milliseconds. */
  const FifteenMinutes: int := 15 * 60 * 1000

  /** JavaScript truthiness of an optional string: present and not empty. */
  predicate Truthy(o: Option<string>) {
    o.Some? && o.value != ""
  }

  predicate IsHeaderNamed(name: string, h: Header) {
    h.name == name
  }

  /** `headers.find((h) => h.name === name)?.value`: the value of the first
      header with exactly that name. */
  function HeaderValue(hs: seq<Header>, name: string): (r: Option<string>)
    ensures r.None? <==> forall i :: 0 <= i < |hs| ==> hs[i].name != name
    ensures r.Some? ==> exists i :: 0 <= i < |hs| && hs[i] == Header(name, r.value) &&
                          forall j :: 0 <= j < i ==> hs[j].name != name
  {
    match FirstIndex(hs, h => IsHeaderNamed(name, h))
    case None => None
    case Some(i) => Some(hs[i].value)
  }

  /** `headers.find((h) => h.name === name)?.value || fallback`. */
  function HeaderOr(hs: seq<Header>, name: string, fallback: string): (r: string)
    ensures r == fallback <==> !Truthy(HeaderValue(hs, name)) || HeaderValue(hs, name).value == fallback
    ensures r != fallback ==> HeaderValue(hs, name) == Some(r)
  {
    var v := HeaderValue(hs, name);
    if Truthy(v) then v.value else fallback
  }

  // ------------------------------------------------------------ subject query

  /** `` `subject:"${s}"` `` */
  function SubjectClause(s: string): string {
    "subject:\"" + s + "\""
  }

  /** `subjects.map((s) => `subject:"${s}"`)` */
  function SubjectClauses(subjects: seq<string>): (r: seq<string>)
    ensures |r| == |subjects|
    ensures forall i :: 0 <= i < |subjects| ==> r[i] == SubjectClause(subjects[i])
  {
    seq(|subjects|, i requires 0 <= i < |subjects| => SubjectClause(subjects[i]))
  }

  /** `subjects.map(...).join(" OR ")` */
  function SubjectQuery(subjects: seq<string>): string {
    Join(SubjectClauses(subjects), " OR ")
  }

  /** Where the clause of subject `k` starts in `SubjectQuery(subjects)`. */
  function ClauseOffset(subjects: seq<string>, k: nat): nat
    requires k <= |subjects|
  {
    Offset(SubjectClauses(subjects), " OR ", k)
  }

  /** Every subject of the list, in list order and duplicates included,
      appears in the query as its own `subject:"…"` clause, and every clause
      but the last is followed by `" OR "`. */
  lemma SubjectQueryListsEachSubject(subjects: seq<string>, k: nat)
    requires k < |subjects|
    ensures var q := SubjectQuery(subjects);
            var o := ClauseOffset(subjects, k);
            var n := |SubjectClause(subjects[k])|;
            && o + n <= |q| && q[o..o + n] == SubjectClause(subjects[k])
            && (k + 1 < |subjects| ==> o + n + 4 <= |q| && q[o + n..o + n + 4] == " OR ")
  {
    var cs := SubjectClauses(subjects);
    JoinAt(cs, " OR ", k);
    if k + 1 < |subjects| {
      JoinSeparatorAfter(cs, " OR ", k);
    }
  }

  /** Every subject's clause occurs in the query. */
  lemma SubjectQueryIncludesEach(subjects: seq<string>)
    ensures forall k :: 0 <= k < |subjects| ==> Includes(SubjectQuery(subjects), SubjectClause(subjects[k]))
  {
    forall k | 0 <= k < |subjects| ensures Includes(SubjectQuery(subjects), SubjectClause(subjects[k])) {
      SubjectQueryListsEachSubject(subjects, k);
      assert PrefixAt(SubjectQuery(subjects), ClauseOffset(subjects, k), SubjectClause(subjects[k]));
    }
  }

  /** `` `${sender}${SUBJECT_QUERY}) to:${recipient}` ``: a sender clause
      that opens the subject group, the subject alternatives, the recipient. */
  function SearchQuery(sender: string, subjects: seq<string>, recipient: string): (r: string)
    ensures |sender| + 5 + |recipient| <= |r| && r[..|sender|] == sender
    ensures r[|r| - |recipient| - 5..|r| - |recipient|] == ") to:"
  {
    var head := sender + SubjectQuery(subjects);
    assert (head + ") to:" + recipient)[..|sender|] == sender;
    assert (head + ") to:" + recipient)[|head|..|head| + 5] == ") to:";
    head + ") to:" + recipient
  }

  /** Every subject of the list is searched for, each as its own clause. */
  lemma SearchNamesEverySubject(sender: string, subjects: seq<string>, recipient: string, k: nat)
    requires k < |subjects|
    ensures var o := |sender| + ClauseOffset(subjects, k);
            var c := SubjectClause(subjects[k]);
            var q := SearchQuery(sender, subjects, recipient);
            o + |c| <= |q| && q[o..o + |c|] == c
  {
    var o := ClauseOffset(subjects, k);
    var c := SubjectClause(subjects[k]);
    SubjectQueryListsEachSubject(subjects, k);
    SliceMiddle(sender, SubjectQuery(subjects), ") to:" + recipient, o, o + |c|);
  }

  /** The search ends with the requested recipient. */
  lemma SearchEndsWithRecipient(sender: string, subjects: seq<string>, recipient: string)
    ensures var q := SearchQuery(sender, subjects, recipient);
            |recipient| <= |q| && q[|q| - |recipient|..] == recipient
  {
    var head := sender + SubjectQuery(subjects) + ") to:";
    assert SearchQuery(sender, subjects, recipient) == head + recipient;
    assert (head + recipient)[|head|..] == recipient;
  }

  // --------------------------------------------------------- recipient address

  /** `to.match(/<([^>]+)>/)?.[1] || to`: the content of the leftmost
      `<…>` with non-empty content, or the whole value when there is none. */
  function BareAddress(to: string): (r: string)
    ensures Capture(to, "<", '>').Some? ==> r == Capture(to, "<", '>').value
    ensures Capture(to, "<", '>').None? ==> r == to
  {
    match Capture(to, "<", '>')
    case Some(a) => a
    case None => to
  }

  /** The recipient check of the household handlers: the newest message has
      a non-empty `To` header whose bare address is the requester's. */
  function AddressedTo(m: Message, email: string): (r: bool)
    ensures var to := HeaderValue(m.headers, "To");
            r <==> && Truthy(to)
                   && (Capture(to.value, "<", '>').Some? ==> Capture(to.value, "<", '>').value == email)
                   && (Capture(to.value, "<", '>').None? ==> to.value == email)
  {
    var to := HeaderValue(m.headers, "To");
    Truthy(to) && BareAddress(to.value) == email
  }

  /** A value without `<` is its own address. */
  lemma BareAddressOfPlain(to: string)
    requires '<' !in to
    ensures BareAddress(to) == to
  {
    forall k: nat | k + 1 <= |to| ensures !PrefixAt(to, k, "<") {
      assert to[k..k + 1][0] == to[k];
      assert to[k] in to;
    }
  }

  /** From `Name <addr>` (a display name without `<`, a non-empty address
      without `>`) the address is extracted. */
  lemma BareAddressOfNamedForm(name: string, addr: string)
    requires '<' !in name && addr != [] && '>' !in addr
    ensures BareAddress(name + "<" + addr + ">") == addr
  {
    var s := name + "<" + addr + ">";
    var i := |name|;
    var j := i + 1 + |addr|;
    assert s[i] == '<' && s[j] == '>';
    assert forall k :: 0 <= k < |addr| ==> s[i + 1 + k] == addr[k];
    assert forall k :: 0 <= k < i ==> s[k] == name[k];
    assert PrefixAt(s, i, "<");
    NextIndexOfIs(s, '>', i + 1, j);
    assert CaptureEnd(s, i, "<", '>') == Some(j);
    forall k | 0 <= k < i ensures !PrefixAt(s, k, "<") {
      assert s[k..k + 1][0] == s[k];
      assert name[k] in name;
    }
    FirstCaptureAt(s, "<", '>', 0, i);
    assert s[i + 1..j] == addr;
  }

  /** `NextIndexOf` finds `j` when `s[j]` is the first `c` from `from` on. */
  lemma {:induction false} NextIndexOfIs(s: string, c: char, from: nat, j: nat)
    requires from <= j < |s| && s[j] == c
    requires forall k :: from <= k < j ==> s[k] != c
    ensures NextIndexOf(s, c, from) == Some(j)
    decreases j - from
  {
    if from < j {
      NextIndexOfIs(s, c, from + 1, j);
    }
  }

  // ---------------------------------------------------------------- freshness

  /** `Date.now() - new Date(v).getTime() > FIFTEEN_MINUTES` rejects; a
      `NaN` date makes the comparison false, so it never rejects. */
  predicate WithinWindow(date: Option<int>, now: int) {
    date.None? || !(now - date.value > FifteenMinutes)
  }

  /** An age of exactly fifteen minutes passes, one millisecond more does
      not, and an unparsable date always passes. */
  lemma WithinWindowBoundary(d: int, now: int)
    ensures WithinWindow(Some(d), now) <==> now - d <= 900000
    ensures WithinWindow(Some(now - 900000), now)
    ensures !WithinWindow(Some(now - 900001), now)
    ensures WithinWindow(None, now)
  {
  }

  // ------------------------------------------------------- first text/html part

  /** What reading a chosen part produces: decoded text, or the `TypeError`
      that `Buffer.from(undefined, "base64")` throws when the part has no data. */
  datatype BodyRead = Decoded(text: string) | Crashed

  predicate IsHtml(p: Part) {
    p.mimeType == "text/html"
  }

  /** The first top-level `text/html` part, decoded from base64; no plain-text
      and no payload-body fallback; `parts` absent reads as `[]`. */
  function FirstHtmlRead(parts: Option<seq<Part>>, decode: string -> string): (r: BodyRead)
    ensures var ps := parts.GetOr([]);
            r.Crashed? <==> exists i :: 0 <= i < |ps| && IsHtml(ps[i]) && ps[i].data.None? &&
                                        forall j :: 0 <= j < i ==> !IsHtml(ps[j])
    ensures var ps := parts.GetOr([]);
            (forall i :: 0 <= i < |ps| ==> !IsHtml(ps[i])) ==> r == Decoded("")
    ensures var ps := parts.GetOr([]);
            forall i :: 0 <= i < |ps| && IsHtml(ps[i]) && ps[i].data.Some? &&
                        (forall j :: 0 <= j < i ==> !IsHtml(ps[j])) ==>
                          r == Decoded(decode(ps[i].data.value))
  {
    var ps := parts.GetOr([]);
    match FirstIndex(ps, IsHtml)
    case None => Decoded("")
    case Some(i) =>
      assert forall k :: 0 <= k < |ps| && IsHtml(ps[k]) && (forall j :: 0 <= j < k ==> !IsHtml(ps[j])) ==> k == i;
      match ps[i].data
      case None => Crashed
      case Some(d) => Decoded(decode(d))
  }

  // ------------------------------------------------------ preferred body part

  /** A part of MIME type `t` whose data is present and non-empty. */
  predicate HasDataOfType(p: Part, t: string) {
    p.mimeType == t && Truthy(p.data)
  }

  /** `HasDataOfType(_, t)` as a value, so that searches over parts share one test. */
  function DataOfType(t: string): (r: Part -> bool)
    ensures forall p :: r(p) == HasDataOfType(p, t)
  {
    p => HasDataOfType(p, t)
  }

  /** The data of the last part of type `t` that has data, or `""`. */
  function LastDataOf(ps: seq<Part>, t: string): (r: string)
    ensures r != "" <==> exists j :: 0 <= j < |ps| && HasDataOfType(ps[j], t)
  {
    match LastIndex(ps, DataOfType(t))
    case None => ""
    case Some(j) => ps[j].data.value
  }

  /** One more part: its data if it qualifies, or what came before. */
  lemma LastDataOfSnoc(ps: seq<Part>, t: string, i: nat)
    requires i < |ps|
    ensures LastDataOf(ps[..i + 1], t) ==
              if HasDataOfType(ps[i], t) then ps[i].data.value else LastDataOf(ps[..i], t)
  {
    LastIndexSnoc(ps, DataOfType(t), i);
  }

  /** The encoded body two controllers pick: the first part of type `first`
      with data; failing that, the last part of type `fallback` with data;
      when the message has no part list, the payload's own data. */
  function PreferredBody(m: Message, first: string, fallback: string): (r: string)
    ensures m.parts.Some? ==>
              forall i :: 0 <= i < |m.parts.value| && HasDataOfType(m.parts.value[i], first) &&
                          (forall j :: 0 <= j < i ==> !HasDataOfType(m.parts.value[j], first)) ==>
                r == m.parts.value[i].data.value
    ensures m.parts.Some? && (forall i :: 0 <= i < |m.parts.value| ==> !HasDataOfType(m.parts.value[i], first)) ==>
              r == LastDataOf(m.parts.value, fallback)
    ensures m.parts.None? ==> r == m.bodyData.GetOr("")
    ensures r == "" <==> if m.parts.Some?
                          then forall i :: 0 <= i < |m.parts.value| ==>
                                 !HasDataOfType(m.parts.value[i], first) && !HasDataOfType(m.parts.value[i], fallback)
                          else !Truthy(m.bodyData)
  {
    match m.parts
    case None => m.bodyData.GetOr("")
    case Some(ps) =>
      match FirstIndex(ps, DataOfType(first))
      case Some(i) => ps[i].data.value
      case None => LastDataOf(ps, fallback)
  }

  /** The loop over the parts: remember every `fallback` part with data and
      stop at the first `first` part with data. */
  method SelectBody(m: Message, first: string, fallback: string) returns (body: string)
    ensures body == PreferredBody(m, first, fallback)
  {
    body := "";
    if m.parts.Some? {
      var ps := m.parts.value;
      var i := 0;
      while i < |ps|
        invariant 0 <= i <= |ps|
        invariant forall j :: 0 <= j < i ==> !HasDataOfType(ps[j], first)
        invariant body == LastDataOf(ps[..i], fallback)
      {
        var part := ps[i];
        if part.mimeType == first && Truthy(part.data) {
          body := part.data.value;
          FirstIndexIs(ps, DataOfType(first), i);
          return;
        }
        LastDataOfSnoc(ps, fallback, i);
        if part.mimeType == fallback && Truthy(part.data) {
          body := part.data.value;
        }
        i := i + 1;
      }
      assert ps[..i] == ps;
      assert FirstIndex(ps, DataOfType(first)).None?;
    } else if Truthy(m.bodyData) {
      body := m.bodyData.value;
    }
  }

  /** The part loop of the household handlers: stop at the first
      `text/html` part and decode it. */
  method ReadFirstHtmlPart(parts: Option<seq<Part>>, decode: string -> string) returns (r: BodyRead)
    ensures r == FirstHtmlRead(parts, decode)
  {
    var ps := parts.GetOr([]);
    r := Decoded("");
    var i := 0;
    while i < |ps|
      invariant 0 <= i <= |ps|
      invariant forall j :: 0 <= j < i ==> !IsHtml(ps[j])
      invariant r == Decoded("")
    {
      if IsHtml(ps[i]) {
        match ps[i].data {
          case None => r := Crashed;
          case Some(d) => r := Decoded(decode(d));
        }
        FirstIndexIs(ps, IsHtml, i);
        return;
      }
      i := i + 1;
    }
  }
}
