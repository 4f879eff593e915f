/**
 * The pure part of the contact mailer (app/lib/email.server.ts): header
 * sanitising, the subject line, the required-settings check, the TLS flag,
 * and the message the relay is handed. The SMTP transport itself and the
 * logging are not part of this model.
 */
module Email {
  import opened Wrappers
  import opened Text

  // ---------------------------------------------------------------------
  // Line breaks
  // ---------------------------------------------------------------------

  predicate IsBreak(c: char) { c == '\r' || c == '\n' }

  /** No CR or LF anywhere: the value cannot start a new header line. */
  predicate NoBreaks(s: string) {
    '\r' !in s && '\n' !in s
  }

  lemma NoBreaksSlice(s: string, i: nat, j: nat)
    requires NoBreaks(s) && i <= j <= |s|
    ensures NoBreaks(s[i..j])
  {
    assert forall k :: 0 <= k < j - i ==> s[i..j][k] == s[i + k];
  }

  /** Drops a leading run of CR/LF. */
  function DropBreaks(s: string): (r: string)
    ensures |r| <= |s| && r == s[|s| - |r|..]
    ensures forall i :: 0 <= i < |s| - |r| ==> IsBreak(s[i])
    ensures r == [] || !IsBreak(r[0])
  {
    if s != [] && IsBreak(s[0]) then DropBreaks(s[1..]) else s
  }

  /**
   * `s.replace(/[\r\n]+/g, " ")`: every maximal run of CR/LF becomes one
   * space; a string without line breaks is left as it is.
   */
  function CollapseBreaks(s: string): (r: string)
    ensures NoBreaks(r)
    ensures |r| <= |s|
    ensures NoBreaks(s) ==> r == s
    decreases |s|
  {
    if s == [] then []
    else if IsBreak(s[0]) then " " + CollapseBreaks(DropBreaks(s))
    else [s[0]] + CollapseBreaks(s[1..])
  }

  /** Text without line breaks passes through; it does not disturb what follows. */
  lemma {:induction false} CollapseKeepsPlainText(u: string, v: string)
    requires NoBreaks(u)
    ensures CollapseBreaks(u + v) == u + CollapseBreaks(v)
  {
    if u == [] {
      assert u + v == v;
    } else {
      var head, rest := u[0], u[1..];
      assert u == [head] + rest;
      assert !IsBreak(head) && NoBreaks(rest);
      calc {
        CollapseBreaks(u + v);
        { assert u + v == [head] + (rest + v); }
        CollapseBreaks([head] + (rest + v));
        { CollapseUnfoldPlain(head, rest + v); }
        [head] + CollapseBreaks(rest + v);
        { CollapseKeepsPlainText(rest, v); }
        [head] + (rest + CollapseBreaks(v));
        u + CollapseBreaks(v);
      }
    }
  }

  lemma CollapseUnfoldPlain(c: char, s: string)
    requires !IsBreak(c)
    ensures CollapseBreaks([c] + s) == [c] + CollapseBreaks(s)
  {
    assert ([c] + s)[1..] == s;
  }

  /** A whole run of line breaks becomes a single space. */
  lemma CollapseRunToSpace(run: string, v: string)
    requires run != [] && forall i :: 0 <= i < |run| ==> IsBreak(run[i])
    requires v == [] || !IsBreak(v[0])
    ensures CollapseBreaks(run + v) == " " + CollapseBreaks(v)
  {
    DropRun(run, v);
  }

  lemma {:induction false} DropRun(run: string, v: string)
    requires forall i :: 0 <= i < |run| ==> IsBreak(run[i])
    requires v == [] || !IsBreak(v[0])
    ensures DropBreaks(run + v) == v
  {
    if run != [] {
      assert (run + v)[1..] == run[1..] + v;
      DropRun(run[1..], v);
    } else {
      assert run + v == v;
    }
  }

  // ---------------------------------------------------------------------
  // Sanitisers
  // ---------------------------------------------------------------------

  /** `sanitizeHeaderValue(input)`: line-break runs become spaces, then the value is trimmed. */
  function SanitizeHeaderValue(input: string): (r: string)
    ensures NoBreaks(r) && IsTrimmed(r)
    ensures |r| <= |input|
    ensures NoBreaks(input) && IsTrimmed(input) ==> r == input
    ensures r == Trim(CollapseBreaks(input))
  {
    var collapsed := CollapseBreaks(input);
    var lead := LeadingWhitespace(collapsed);
    var r := Trim(collapsed);
    NoBreaksSlice(collapsed, lead, lead + |r|);
    r
  }

  /**
   * The sanitised value is a slice of the break-collapsed input, and only
   * whitespace lies outside that slice on either side: besides the breaks,
   * nothing but surrounding whitespace is dropped.
   */
  lemma SanitizedIsCollapsedCore(input: string)
    ensures var c := CollapseBreaks(input); var r := SanitizeHeaderValue(input);
      var lead := LeadingWhitespace(c);
      && lead + |r| <= |c| && r == c[lead..lead + |r|]
      && (forall i :: 0 <= i < lead ==> IsWhitespace(c[i]))
      && (forall i :: lead + |r| <= i < |c| ==> IsWhitespace(c[i]))
  {
  }

  /**
   * Two lines of text joined by a run of line breaks become one line, the
   * run replaced by a single space; nothing else is lost.
   */
  lemma SanitizeJoinsLines(a: string, run: string, b: string)
    requires a != [] && b != [] && NoBreaks(a) && NoBreaks(b) && IsTrimmed(a) && IsTrimmed(b)
    requires run != [] && forall i :: 0 <= i < |run| ==> IsBreak(run[i])
    ensures SanitizeHeaderValue(a + run + b) == a + " " + b
  {
    var joined := a + " " + b;
    CollapseJoinsLines(a, run, b);
    assert IsTrimmed(joined) by {
      assert joined[0] == a[0] && joined[|joined| - 1] == b[|b| - 1];
    }
    assert Trim(joined) == joined;
  }

  lemma CollapseJoinsLines(a: string, run: string, b: string)
    requires b != [] && NoBreaks(a) && NoBreaks(b)
    requires run != [] && forall i :: 0 <= i < |run| ==> IsBreak(run[i])
    ensures CollapseBreaks(a + run + b) == a + " " + b
  {
    assert a + run + b == a + (run + b);
    CollapseKeepsPlainText(a, run + b);
    CollapseRunToSpace(run, b);
    assert a + (" " + b) == a + " " + b;
  }

  /** Sanitising a sanitised value changes nothing. */
  lemma SanitizeHeaderValueIdempotent(input: string)
    ensures SanitizeHeaderValue(SanitizeHeaderValue(input)) == SanitizeHeaderValue(input)
  {
  }

  /** The characters removed from a reply-to address. */
  predicate IsForbiddenInAddress(c: char) {
    c in "<>()[]\\,;:\"'"
  }

  predicate NoForbidden(s: string) {
    forall i :: 0 <= i < |s| ==> !IsForbiddenInAddress(s[i])
  }

  /** `s.replace(/[<>\(\)\[\]\\,;:"']/g, "")`: the other characters, in order. */
  function RemoveForbidden(s: string): (r: string)
    ensures NoForbidden(r)
    ensures |r| <= |s|
    ensures NoBreaks(s) ==> NoBreaks(r)
    ensures NoForbidden(s) ==> r == s
    ensures forall i :: 0 <= i < |r| ==> r[i] in s
  {
    if s == [] then []
    else if IsForbiddenInAddress(s[0]) then RemoveForbidden(s[1..])
    else [s[0]] + RemoveForbidden(s[1..])
  }

  /**
   * Removal works piece by piece: the characters that are kept stay in
   * their order, and a single character is dropped exactly when forbidden.
   */
  lemma {:induction false} RemoveForbiddenAppend(a: string, b: string)
    ensures RemoveForbidden(a + b) == RemoveForbidden(a) + RemoveForbidden(b)
  {
    if a == [] {
      assert a + b == b;
    } else {
      assert (a + b)[0] == a[0] && (a + b)[1..] == a[1..] + b;
      RemoveForbiddenAppend(a[1..], b);
    }
  }

  /** Longest reply-to address kept. */
  const MaxAddressLength: nat := 254

  /**
   * `sanitizeEmailAddress(input)`: sanitised as a header value, stripped of
   * the characters that could break out of an address, cut to 254 units.
   */
  function SanitizeEmailAddress(input: string): (r: string)
    ensures NoBreaks(r) && NoForbidden(r)
    ensures |r| <= MaxAddressLength
    ensures r <= RemoveForbidden(SanitizeHeaderValue(input))
    ensures |r| == Min(|RemoveForbidden(SanitizeHeaderValue(input))|, MaxAddressLength)
  {
    var cleaned := RemoveForbidden(SanitizeHeaderValue(input));
    var r := Take(cleaned, MaxAddressLength);
    NoBreaksSlice(cleaned, 0, |r|);
    assert r == cleaned[0..|r|];
    r
  }

  /** An address that is already clean, trimmed and short enough comes back unchanged. */
  lemma CleanAddressUnchanged(input: string)
    requires NoBreaks(input) && NoForbidden(input) && IsTrimmed(input) && |input| <= MaxAddressLength
    ensures SanitizeEmailAddress(input) == input
  {
  }

  /** Longest subject text kept before the prefix is added, and longest subject line. */
  const MaxSubjectBase: nat := 200
  const MaxSubject: nat := 240

  /**
   * `buildSubject(raw, prefix)`: the sanitised subject cut to 200 units,
   * after the sanitised prefix and one space when the prefix is non-empty,
   * all cut to 240 units.
   */
  function BuildSubject(raw: string, prefix: string): (r: string)
    ensures NoBreaks(r) && |r| <= MaxSubject
    ensures prefix == [] ==> r == Take(SanitizeHeaderValue(raw), MaxSubjectBase)
    ensures prefix != [] ==> r <= SanitizeHeaderValue(prefix) + " " + Take(SanitizeHeaderValue(raw), MaxSubjectBase)
    ensures prefix != [] ==>
      |r| == Min(|SanitizeHeaderValue(prefix)| + 1 + |Take(SanitizeHeaderValue(raw), MaxSubjectBase)|, MaxSubject)
  {
    var base := Take(SanitizeHeaderValue(raw), MaxSubjectBase);
    var pfx := if prefix != [] then SanitizeHeaderValue(prefix) + " " else "";
    var sanitized := SanitizeHeaderValue(raw);
    NoBreaksSlice(sanitized, 0, |base|);
    assert base == sanitized[0..|base|];
    var r := Take(pfx + base, MaxSubject);
    NoBreaksSlice(pfx + base, 0, |r|);
    assert r == (pfx + base)[0..|r|];
    r
  }

  /** A prefix of at most 39 units never cuts into the 200-unit subject text. */
  lemma ShortPrefixKeepsWholeBase(raw: string, prefix: string)
    requires prefix != [] && |SanitizeHeaderValue(prefix)| < MaxSubject - MaxSubjectBase
    ensures BuildSubject(raw, prefix) == SanitizeHeaderValue(prefix) + " " + Take(SanitizeHeaderValue(raw), MaxSubjectBase)
  {
  }

  // ---------------------------------------------------------------------
  // Configuration
  // ---------------------------------------------------------------------

  /** `process.env`. */
  type Env = map<string, string>

  /** A variable counts as set when it is present and non-empty. */
  predicate IsSet(env: Env, name: string) {
    name in env && env[name] != []
  }

  /** The variables `assertEmailConfig` demands, in the order it checks them. */
  const RequiredSettings: seq<string> := ["SMTP_HOST", "SMTP_PORT", "CONTACT_TO_EMAIL", "CONTACT_FROM_EMAIL"]

  /** The error `assertEmailConfig` throws. */
  datatype ConfigError = NotSet(name: string) {
    function Message(): (m: string)
      ensures name <= m && m[|name|..] == " is not set"
    {
      name + " is not set"
    }
  }

  /** The position of the first unset name in `names`, if any. */
  function FirstUnset(env: Env, names: seq<string>): (r: Option<nat>)
    ensures r.None? <==> forall i :: 0 <= i < |names| ==> IsSet(env, names[i])
    ensures r.Some? ==> r.value < |names| && !IsSet(env, names[r.value])
    ensures r.Some? ==> forall j :: 0 <= j < r.value ==> IsSet(env, names[j])
  {
    if names == [] then None
    else if !IsSet(env, names[0]) then Some(0)
    else
      var rest := FirstUnset(env, names[1..]);
      if rest.None? then None else Some(rest.value + 1)
  }

  /**
   * `assertEmailConfig()`: fails exactly when one of the four required
   * variables is absent or empty, naming the first such one.
   */
  function AssertEmailConfig(env: Env): (r: Option<ConfigError>)
    ensures r.None? <==> forall i :: 0 <= i < |RequiredSettings| ==> IsSet(env, RequiredSettings[i])
    ensures r.Some? ==>
      exists i :: 0 <= i < |RequiredSettings| && r.value == NotSet(RequiredSettings[i])
        && !IsSet(env, RequiredSettings[i])
        && forall j :: 0 <= j < i ==> IsSet(env, RequiredSettings[j])
  {
    var missing := FirstUnset(env, RequiredSettings);
    if missing.None? then None else Some(NotSet(RequiredSettings[missing.value]))
  }

  /** The port that always means implicit TLS. */
  const SmtpsPort: int := 465

  /**
   * The `secure` transport flag: SMTP_SECURE is "true" in any letter case,
   * or the port is 465. `port` is `Number(SMTP_PORT)`.
   */
  function SecureFlag(smtpSecure: Option<string>, port: int): (secure: bool)
    ensures secure <==>
      || port == SmtpsPort
      || (smtpSecure.Some? && |smtpSecure.value| == 4
          && forall i :: 0 <= i < 4 ==> LowerAscii(smtpSecure.value[i]) == "true"[i])
  {
    ToLowerAscii(OrElse(smtpSecure, "")) == "true" || port == SmtpsPort
  }

  // ---------------------------------------------------------------------
  // The message handed to the relay
  // ---------------------------------------------------------------------

  const MaxText: nat := 20000
  const MaxHtml: nat := 50000

  /** `String(text ?? "").slice(0, 20000)` */
  function SafeText(text: Option<string>): (r: string)
    ensures |r| <= MaxText && r <= text.GetOr("")
    ensures |text.GetOr("")| <= MaxText ==> r == text.GetOr("")
    ensures |r| == Min(|text.GetOr("")|, MaxText)
  {
    Take(text.GetOr(""), MaxText)
  }

  /** The HTML alternative: present only when `html` has non-blank content, then cut to 50000 units. */
  function SafeHtml(html: Option<string>): (r: Option<string>)
    ensures r.Some? <==> html.Some? && Trim(html.value) != []
    ensures r.Some? ==> r.value != [] && |r.value| <= MaxHtml && r.value <= html.value
    ensures r.Some? ==> |r.value| == Min(|html.value|, MaxHtml)
    ensures r.Some? && |html.value| <= MaxHtml ==> r.value == html.value
  {
    if html.Some? && Trim(html.value) != [] then Some(Take(html.value, MaxHtml)) else None
  }

  /**
   * The plain-text body: a "From: " line holding the reply-to address, a
   * blank line, then the text. A break-free address fills the first line
   * exactly, so the visitor's text cannot reach it.
   */
  function PlainBody(replyTo: string, safeText: string): (r: string)
    ensures |r| == |FromLabel| + |replyTo| + 2 + |safeText|
    ensures r[..|FromLabel|] == FromLabel && r[|r| - |safeText|..] == safeText
    ensures var k := |FromLabel| + |replyTo|; r[|FromLabel|..k] == replyTo && r[k..k + 2] == "\n\n"
    ensures NoBreaks(replyTo) ==> FirstLineEnd(r) == |FromLabel| + |replyTo|
  {
    PlainBodyShape(replyTo, safeText);
    FromLabel + replyTo + "\n\n" + safeText
  }

  lemma PlainBodyShape(replyTo: string, safeText: string)
    ensures var r := FromLabel + replyTo + "\n\n" + safeText;
      && r[..|FromLabel|] == FromLabel && r[|r| - |safeText|..] == safeText
      && r[|FromLabel|..|FromLabel| + |replyTo|] == replyTo
      && r[|FromLabel| + |replyTo|..|FromLabel| + |replyTo| + 2] == "\n\n"
      && (NoBreaks(replyTo) ==> FirstLineEnd(r) == |FromLabel| + |replyTo|)
  {
    var r := FromLabel + replyTo + "\n\n" + safeText;
    assert r[..|FromLabel|] == FromLabel;
    assert r[|r| - |safeText|..] == safeText;
    assert r[|FromLabel|..|FromLabel| + |replyTo|] == replyTo;
    assert r[|FromLabel| + |replyTo|..|FromLabel| + |replyTo| + 2] == "\n\n";
    if NoBreaks(replyTo) {
      var k := |FromLabel| + |replyTo|;
      assert r[k] == '\n';
      forall i | 0 <= i < k ensures !IsBreak(r[i]) {
        if i >= |FromLabel| { assert r[i] == replyTo[i - |FromLabel|]; }
      }
      FirstLineEndAt(r, k);
    }
  }

  const FromLabel: string := "From: "

  /** The index of the first CR or LF, or the length when there is none. */
  function FirstLineEnd(s: string): (n: nat)
    ensures n <= |s|
  {
    if s == [] || IsBreak(s[0]) then 0 else 1 + FirstLineEnd(s[1..])
  }

  lemma {:induction false} FirstLineEndAt(s: string, k: nat)
    requires k < |s| && IsBreak(s[k])
    requires forall i :: 0 <= i < k ==> !IsBreak(s[i])
    ensures FirstLineEnd(s) == k
  {
    if k > 0 {
      FirstLineEndAt(s[1..], k - 1);
    }
  }

  /** `SendContactEmailParams`; `text` and `html` may be missing at run time. */
  datatype ContactParams = ContactParams(fromEmail: string, subject: string, text: Option<string>, html: Option<string>)

  /** The options given to `transporter.sendMail`. */
  datatype Mail = Mail(
    from: string, to: string, bcc: Option<string>, subject: string,
    text: string, html: Option<string>, replyTo: string, headers: map<string, string>)

  const DefaultSubjectPrefix: string := "[Contact]"

  /** The one extra header every contact message carries. */
  const ContactHeaders: map<string, string> := map["X-Contact-Form" := "true"]

  /** That header is the X-Contact-Form marker alone, free of line breaks. */
  lemma ContactHeadersClean()
    ensures ContactHeaders.Keys == {"X-Contact-Form"} && ContactHeaders["X-Contact-Form"] == "true"
    ensures forall k :: k in ContactHeaders ==> NoBreaks(k) && NoBreaks(ContactHeaders[k])
  {
    assert NoBreaks("X-Contact-Form") && NoBreaks("true");
  }

  /**
   * What `sendContactEmail` hands the relay, or the configuration error it
   * throws first. The settings checked by `assertEmailConfig` are non-empty
   * afterwards, which the source relies on with its `!` assertions.
   */
  function ComposeContactEmail(env: Env, p: ContactParams): (r: Result<Mail, ConfigError>)
    ensures r.Failure? <==> AssertEmailConfig(env).Some?
    ensures r.Failure? ==> r.error == AssertEmailConfig(env).value
    ensures r.Success? ==>
      && r.value.replyTo == SanitizeEmailAddress(p.fromEmail)
      && r.value.subject == BuildSubject(p.subject, OrElse(Lookup(env, "CONTACT_SUBJECT_PREFIX"), DefaultSubjectPrefix))
      && r.value.text == PlainBody(r.value.replyTo, SafeText(p.text))
      && r.value.html == SafeHtml(p.html)
      && (r.value.bcc.Some? <==> IsSet(env, "CONTACT_BCC_EMAIL"))
    ensures r.Success? ==> "CONTACT_FROM_EMAIL" in env && "CONTACT_TO_EMAIL" in env
    ensures r.Success? ==> r.value.from == SanitizeHeaderValue(env["CONTACT_FROM_EMAIL"])
    ensures r.Success? ==> r.value.to == SanitizeHeaderValue(env["CONTACT_TO_EMAIL"])
    ensures r.Success? && r.value.bcc.Some? ==>
      "CONTACT_BCC_EMAIL" in env && r.value.bcc.value == SanitizeHeaderValue(env["CONTACT_BCC_EMAIL"])
    ensures r.Success? ==> r.value.headers == ContactHeaders
  {
    var missing := AssertEmailConfig(env);
    if missing.Some? then Failure(missing.value)
    else
      assert IsSet(env, RequiredSettings[2]) && IsSet(env, RequiredSettings[3]);
      var replyTo := SanitizeEmailAddress(p.fromEmail);
      var bcc := OrElse(Lookup(env, "CONTACT_BCC_EMAIL"), "");
      Success(Mail(
        from := SanitizeHeaderValue(env["CONTACT_FROM_EMAIL"]),
        to := SanitizeHeaderValue(env["CONTACT_TO_EMAIL"]),
        bcc := if bcc != [] then Some(SanitizeHeaderValue(bcc)) else None,
        subject := BuildSubject(p.subject, OrElse(Lookup(env, "CONTACT_SUBJECT_PREFIX"), DefaultSubjectPrefix)),
        text := PlainBody(replyTo, SafeText(p.text)),
        html := SafeHtml(p.html),
        replyTo := replyTo,
        headers := ContactHeaders))
  }

  /**
   * No header of the composed message can carry a line break, whatever the
   * visitor typed. The message is composed whenever the configuration check
   * passes.
   */
  lemma ComposedHeadersHaveNoBreaks(env: Env, p: ContactParams)
    requires AssertEmailConfig(env).None?
    ensures ComposeContactEmail(env, p).Success?
    ensures var m := ComposeContactEmail(env, p).value;
      && NoBreaks(m.from) && NoBreaks(m.to) && NoBreaks(m.subject) && NoBreaks(m.replyTo)
      && (m.bcc.Some? ==> NoBreaks(m.bcc.value))
      && |m.subject| <= MaxSubject && |m.replyTo| <= MaxAddressLength
  {
  }

  /**
   * The only extra header of a composed message is the fixed X-Contact-Form
   * marker, and neither its name nor its value carries a line break: with
   * `ComposedHeadersHaveNoBreaks`, the message cannot inject further headers.
   */
  lemma ComposedExtraHeaderIsFixed(env: Env, p: ContactParams)
    requires AssertEmailConfig(env).None?
    ensures var r := ComposeContactEmail(env, p);
      && r.Success? && r.value.headers.Keys == {"X-Contact-Form"}
      && forall k :: k in r.value.headers ==> NoBreaks(k) && NoBreaks(r.value.headers[k])
  {
    ContactHeadersClean();
  }
}
