/** The contact form: validateForm, the error notice it raises, the message
    createWhatsAppMessage builds, and the submit handler that ties them
    together. Field values are parameters; reading them from the page, the
    notices' markup and the form reset are effects named in the result. */
module ContactForm {
  import opened Text
  import opened Email
  import ServiceNames

  /** A value read with FormData.get: the field's text, or null when the form
      has no field of that name. */
  datatype Field = Missing | Value(text: string)

  /** JavaScript truthiness of a field value: null and "" are falsy. */
  predicate Present(f: Field) {
    f.Value? && |f.text| > 0
  }

  /** The text a template literal produces for a field value. */
  function Show(f: Field): string {
    match f
    case Missing => "null"
    case Value(t) => t
  }

  datatype Submission = Submission(name: Field, email: Field, phone: Field, service: Field, message: Field)

  /** The four rules, in the order validateForm checks them. */
  datatype Rule = NameRule | EmailRule | ServiceRule | MessageRule

  function Rank(r: Rule): nat {
    match r
    case NameRule => 0
    case EmailRule => 1
    case ServiceRule => 2
    case MessageRule => 3
  }

  function ErrorText(r: Rule): string {
    match r
    case NameRule => "El nombre debe tener al menos 2 caracteres"
    case EmailRule => "Por favor ingresa un email válido"
    case ServiceRule => "Por favor selecciona un servicio"
    case MessageRule => "El mensaje debe tener al menos 10 caracteres"
  }

  /** Trimmed length, counted in UTF-16 code units as JavaScript's .length. */
  function TrimmedLength(f: Field): nat {
    Utf16Length(Trim(Show(f)))
  }

  /** What each rule asks of a submission. */
  predicate Satisfies(sub: Submission, r: Rule) {
    match r
    case NameRule => Present(sub.name) && TrimmedLength(sub.name) >= 2
    case EmailRule => Present(sub.email) && IsValidEmail(sub.email.text)
    case ServiceRule => Present(sub.service)
    case MessageRule => Present(sub.message) && TrimmedLength(sub.message) >= 10
  }

  /** The order in which validateForm checks the rules. */
  const CheckOrder: seq<Rule> := [NameRule, EmailRule, ServiceRule, MessageRule]

  /** The rules of a rank-ordered list that the submission violates, kept in
      their order. */
  function Violated(sub: Submission, rules: seq<Rule>): (errors: seq<Rule>)
    requires forall i, j :: 0 <= i < j < |rules| ==> Rank(rules[i]) < Rank(rules[j])
    ensures forall r :: r in errors <==> r in rules && !Satisfies(sub, r)
    ensures forall i, j :: 0 <= i < j < |errors| ==> Rank(errors[i]) < Rank(errors[j])
    ensures |errors| == 0 || (|rules| > 0 && Rank(errors[0]) >= Rank(rules[0]))
  {
    if rules == [] then []
    else
      var rest := Violated(sub, rules[1..]);
      if Satisfies(sub, rules[0]) then rest else [rules[0]] + rest
  }

  lemma EveryRuleChecked()
    ensures forall r :: r in CheckOrder
    ensures forall i, j :: 0 <= i < j < |CheckOrder| ==> Rank(CheckOrder[i]) < Rank(CheckOrder[j])
  {
    forall r ensures r in CheckOrder {
      assert CheckOrder[Rank(r)] == r;
    }
  }

  /** The error list validateForm collects: every violated rule, each once, in
      checking order. */
  function Errors(sub: Submission): (errors: seq<Rule>)
    ensures forall r :: r in errors <==> !Satisfies(sub, r)
    ensures forall i, j :: 0 <= i < j < |errors| ==> Rank(errors[i]) < Rank(errors[j])
  {
    EveryRuleChecked();
    Violated(sub, CheckOrder)
  }

  function ErrorTexts(rules: seq<Rule>): (texts: seq<string>)
    ensures |texts| == |rules|
    ensures forall k :: 0 <= k < |rules| ==> texts[k] == ErrorText(rules[k])
  {
    if rules == [] then [] else [ErrorText(rules[0])] + ErrorTexts(rules[1..])
  }

  /** Outcome of validateForm: accepted, or rejected with the notice shown. */
  datatype Verdict = Accepted | Rejected(notice: string)

  /** The acceptance condition in the form's own terms. */
  ghost predicate Acceptable(sub: Submission) {
    && sub.name.Value? && Utf16Length(Trim(sub.name.text)) >= 2
    && sub.email.Value? && MatchesEmailRegex(sub.email.text)
    && sub.service.Value? && sub.service.text != ""
    && sub.message.Value? && Utf16Length(Trim(sub.message.text)) >= 10
  }

  /** validateForm: accepts exactly the acceptable submissions; a rejection
      carries one line per violated rule, in checking order. */
  function ValidateForm(sub: Submission): (v: Verdict)
    ensures v.Accepted? <==> Acceptable(sub)
    ensures v.Rejected? ==> Split(v.notice, '\n') == ErrorTexts(Errors(sub))
  {
    var errors := Errors(sub);
    NoErrorsIffAcceptable(sub);
    if |errors| > 0 then
      NoticeRoundTrip(errors);
      Rejected(Join(ErrorTexts(errors), '\n'))
    else
      Accepted
  }

  lemma NoErrorsIffAcceptable(sub: Submission)
    ensures |Errors(sub)| == 0 <==> Acceptable(sub)
  {
    var errors := Errors(sub);
    AcceptableIffAllSatisfied(sub);
    if |errors| > 0 {
      assert !Satisfies(sub, errors[0]);
    }
  }

  /** The joined notice splits back into the error texts. */
  lemma NoticeRoundTrip(errors: seq<Rule>)
    requires |errors| > 0
    ensures Split(Join(ErrorTexts(errors), '\n'), '\n') == ErrorTexts(errors)
  {
    var texts := ErrorTexts(errors);
    forall k | 0 <= k < |texts| ensures '\n' !in texts[k] {
      NoNewlineInErrorText(errors[k]);
    }
    SplitJoin(texts, '\n');
  }

  lemma AcceptableIffAllSatisfied(sub: Submission)
    ensures Acceptable(sub) <==> forall r :: Satisfies(sub, r)
  {
    NameRuleMeaning(sub);
    EmailRuleMeaning(sub);
    MessageRuleMeaning(sub);
    if Acceptable(sub) {
      forall r ensures Satisfies(sub, r) {
        match r
        case NameRule =>
        case EmailRule =>
        case ServiceRule =>
        case MessageRule =>
      }
    }
    if forall r :: Satisfies(sub, r) {
      assert Satisfies(sub, NameRule) && Satisfies(sub, EmailRule);
      assert Satisfies(sub, ServiceRule) && Satisfies(sub, MessageRule);
    }
  }

  lemma NameRuleMeaning(sub: Submission)
    ensures Satisfies(sub, NameRule) <==> sub.name.Value? && Utf16Length(Trim(sub.name.text)) >= 2
  {
  }

  lemma EmailRuleMeaning(sub: Submission)
    ensures Satisfies(sub, EmailRule) <==> sub.email.Value? && MatchesEmailRegex(sub.email.text)
  {
  }

  lemma MessageRuleMeaning(sub: Submission)
    ensures Satisfies(sub, MessageRule) <==> sub.message.Value? && Utf16Length(Trim(sub.message.text)) >= 10
  {
  }

  lemma NoNewlineInErrorText(r: Rule)
    ensures '\n' !in ErrorText(r)
  {
    match r
    case NameRule => assert '\n' !in "El nombre debe tener al menos 2 caracteres";
    case EmailRule => assert '\n' !in "Por favor ingresa un email válido";
    case ServiceRule => assert '\n' !in "Por favor selecciona un servicio";
    case MessageRule => assert '\n' !in "El mensaje debe tener al menos 10 caracteres";
  }

  /** The text shown for the service field. */
  function ServiceShown(f: Field): string {
    ServiceNames.DisplayService(Show(f))
  }

  /** On every code the service selector can send, the text shown is the
      one the source's own lookup shows. */
  lemma ServiceShownAsWritten(f: Field)
    requires Show(f) !in ServiceNames.PrototypeNames
    ensures ServiceShown(f) == ServiceNames.DisplayServiceAsWritten(Show(f))
  {
    ServiceNames.AgreeOffPrototype(Show(f));
  }

  const Header := "🔒 *CONSULTA DESDE WEB - ASESORIASEGURIDAD*"
  const NameLabel := "👤 *Nombre:* "
  const EmailLabel := "📧 *Email:* "
  const PhoneLabel := "📱 *Teléfono:* "
  const ServiceLabel := "🛡️ *Servicio de interés:* "
  const MessageLabel := "💬 *Mensaje:*"
  const Footer := "⏰ *Horario de atención:* Lunes a viernes de 09:00 a 20:00 hrs."

  /** createWhatsAppMessage: the message opens with the header, a blank
      line and the name and email lines, and closes with a blank line and the
      opening hours. */
  function BuildMessage(sub: Submission): (m: string)
    ensures Header + "\n\n" + (NameLabel + Show(sub.name)) + "\n" + (EmailLabel + Show(sub.email)) + "\n" <= m
    ensures |m| >= |Footer| + 2 && m[|m| - |Footer| - 2..] == "\n\n" + Footer
  {
    Assemble(Header, NameLabel + Show(sub.name), EmailLabel + Show(sub.email), PhoneLines(sub.phone),
      ServiceLabel + ServiceShown(sub.service), MessageLabel, Show(sub.message), Footer)
  }

  /** The message assembled piece by piece as the source does; each template
      literal of the source is one parenthesised piece. */
  function Assemble(header: string, name: string, email: string, phone: seq<string>,
                    service: string, heading: string, message: string, footer: string): (m: string)
    requires |phone| <= 1
    ensures header + "\n\n" + name + "\n" + email + "\n" <= m
    ensures |m| >= |footer| + 2 && m[|m| - |footer| - 2..] == "\n\n" + footer
    ensures |m| == |header| + |name| + |email| + |service| + |heading| + |message| + |footer| + 9
                   + (if |phone| == 1 then |phone[0]| + 1 else 0)
  {
    var text := header + "\n\n";
    var text := text + (name + "\n");
    var text := text + (email + "\n");
    var text := if |phone| == 1 then text + (phone[0] + "\n") else text;
    var text := text + (service + "\n\n");
    var text := text + (heading + "\n" + message + "\n\n");
    text + footer
  }

  /** The message read line by line: header, blank, name, email, the phone
      line only when a phone was given, service, blank, message label, the
      message, blank, opening hours. */
  function MessageLines(sub: Submission): (lines: seq<string>)
    ensures |lines| == (if Present(sub.phone) then 11 else 10)
  {
    [Header, "", NameLabel + Show(sub.name), EmailLabel + Show(sub.email)]
    + PhoneLines(sub.phone)
    + [ServiceLabel + ServiceShown(sub.service), "", MessageLabel, Show(sub.message), "", Footer]
  }

  function PhoneLines(phone: Field): seq<string> {
    if Present(phone) then [PhoneLabel + phone.text] else []
  }

  /** The assembled message is exactly its lines joined with line breaks. */
  lemma MessageLayout(sub: Submission)
    ensures BuildMessage(sub) == Join(MessageLines(sub), '\n')
  {
    LayoutOfPieces(Header, NameLabel + Show(sub.name), EmailLabel + Show(sub.email), PhoneLines(sub.phone),
      ServiceLabel + ServiceShown(sub.service), MessageLabel, Show(sub.message), Footer);
    assert MessageLines(sub) == [Header, "", NameLabel + Show(sub.name), EmailLabel + Show(sub.email)] + PhoneLines(sub.phone)
      + [ServiceLabel + ServiceShown(sub.service), "", MessageLabel, Show(sub.message), "", Footer];
  }

  /** The layout with every line left abstract. */
  lemma LayoutOfPieces(header: string, name: string, email: string, phone: seq<string>,
                       service: string, heading: string, message: string, footer: string)
    requires |phone| <= 1
    ensures Assemble(header, name, email, phone, service, heading, message, footer)
         == Join([header, "", name, email] + phone + [service, "", heading, message, "", footer], '\n')
  {
    var head := [header, "", name, email];
    var tail := [service, "", heading, message, "", footer];
    JoinTail(service, heading, message, footer);
    JoinPhone(phone, tail);
    JoinHead(header, name, email, phone + tail);
    assert head + phone + tail == head + (phone + tail);
    AssembleRegroup(header, name, email, phone, service, heading, message, footer,
      Join(head + (phone + tail), '\n'), Join(phone + tail, '\n'), Join(tail, '\n'));
  }

  lemma AssembleRegroup(header: string, name: string, email: string, phone: seq<string>,
                        service: string, heading: string, message: string, footer: string,
                        whole: string, rest: string, tail: string)
    requires |phone| <= 1
    requires tail == service + "\n\n" + (heading + "\n" + message + "\n\n") + footer
    requires rest == (if |phone| == 1 then phone[0] + "\n" else "") + tail
    requires whole == header + "\n\n" + (name + "\n") + (email + "\n") + rest
    ensures Assemble(header, name, email, phone, service, heading, message, footer) == whole
  {
  }

  lemma JoinPhone(phone: seq<string>, tail: seq<string>)
    requires |phone| <= 1 && |tail| > 0
    ensures Join(phone + tail, '\n') == (if |phone| == 1 then phone[0] + "\n" else "") + Join(tail, '\n')
  {
    if |phone| == 1 {
      JoinAppend(phone, tail);
    } else {
      assert phone + tail == tail;
    }
  }

  lemma JoinTail(service: string, heading: string, message: string, footer: string)
    ensures Join([service, "", heading, message, "", footer], '\n')
         == service + "\n\n" + (heading + "\n" + message + "\n\n") + footer
  {
    var j3 := Join([message, "", footer], '\n');
    JoinThree(message, "", footer);
    var j5 := Join(["", heading, message, "", footer], '\n');
    JoinTwoMore("", heading, [message, "", footer]);
    JoinTwoMore(service, "", [heading, message, "", footer]);
    assert [heading, message, "", footer] == [heading] + [message, "", footer];
    JoinCons([heading, message, "", footer]);
    TailRegroup(Join([service, "", heading, message, "", footer], '\n'), Join([heading, message, "", footer], '\n'),
      j3, service, heading, message, footer);
  }

  lemma JoinThree(a: string, b: string, c: string)
    ensures Join([a, b, c], '\n') == a + "\n" + (b + "\n" + c)
  {
    JoinCons([a, b, c]);
    JoinCons([b, c]);
    assert [a, b, c][1..] == [b, c];
    assert [b, c][1..] == [c];
  }

  lemma JoinTwoMore(a: string, b: string, rest: seq<string>)
    requires |rest| > 0
    ensures Join([a, b] + rest, '\n') == a + "\n" + (b + "\n" + Join(rest, '\n'))
  {
    var all := [a, b] + rest;
    var more := [b] + rest;
    assert all[0] == a && all[1..] == more;
    assert more[0] == b && more[1..] == rest;
    JoinStep(all, a, more);
    JoinStep(more, b, rest);
  }

  /** Joining a line in front of a non-empty rest. */
  lemma JoinStep(parts: seq<string>, first: string, rest: seq<string>)
    requires |parts| >= 2 && parts[0] == first && parts[1..] == rest
    ensures Join(parts, '\n') == first + "\n" + Join(rest, '\n')
  {
  }

  lemma TailRegroup(whole: string, four: string, three: string,
                    service: string, heading: string, message: string, footer: string)
    requires three == message + "\n" + ("" + "\n" + footer)
    requires four == heading + "\n" + three
    requires whole == service + "\n" + ("" + "\n" + four)
    ensures whole == service + "\n\n" + (heading + "\n" + message + "\n\n") + footer
  {
  }

  lemma JoinHead(header: string, name: string, email: string, rest: seq<string>)
    requires |rest| > 0
    ensures Join([header, "", name, email] + rest, '\n')
         == header + "\n\n" + (name + "\n") + (email + "\n") + Join(rest, '\n')
  {
    var head := [header, "", name, email];
    JoinFour(header, name, email);
    JoinAppend(head, rest);
    HeadRegroup(Join(head + rest, '\n'), Join(head, '\n'), Join(rest, '\n'), header, name, email);
  }

  lemma HeadRegroup(whole: string, head: string, rest: string, header: string, name: string, email: string)
    requires head == header + "\n\n" + (name + "\n") + email
    requires whole == head + "\n" + rest
    ensures whole == header + "\n\n" + (name + "\n") + (email + "\n") + rest
  {
  }

  lemma JoinFour(header: string, name: string, email: string)
    ensures Join([header, "", name, email], '\n') == header + "\n\n" + (name + "\n") + email
  {
    var head := [header, "", name, email];
    JoinCons(head[3..]);
    JoinCons(head[2..]);
    JoinCons(head[1..]);
    JoinCons(head);
  }

  lemma {:induction false} JoinAppend(a: seq<string>, b: seq<string>)
    requires |a| > 0 && |b| > 0
    ensures Join(a + b, '\n') == Join(a, '\n') + "\n" + Join(b, '\n')
  {
    if |a| == 1 {
      JoinCons(a + b);
      assert (a + b)[1..] == b;
    } else {
      JoinCons(a + b);
      assert (a + b)[1..] == a[1..] + b;
      JoinAppend(a[1..], b);
    }
  }

  lemma JoinCons(parts: seq<string>)
    requires |parts| >= 1
    ensures Join(parts, '\n') == if |parts| == 1 then parts[0] else parts[0] + "\n" + Join(parts[1..], '\n')
  {
  }

  /** With no line break inside the fields, splitting the message at line
      breaks gives back exactly its lines. */
  lemma MessageSplitsIntoLines(sub: Submission)
    requires forall k :: 0 <= k < |MessageLines(sub)| ==> '\n' !in MessageLines(sub)[k]
    ensures Split(BuildMessage(sub), '\n') == MessageLines(sub)
  {
    MessageLayout(sub);
    SplitJoin(MessageLines(sub), '\n');
  }

  predicate StartsWith(s: string, prefix: string) {
    |prefix| <= |s| && s[..|prefix|] == prefix
  }

  /** The fifth line of the message is the phone line exactly when a phone
      was given, whatever the service and message hold; only the name and the
      email, which come before it, must keep to one line. */
  lemma PhoneLineIffPhone(sub: Submission)
    requires '\n' !in Show(sub.name) && '\n' !in Show(sub.email)
    ensures |Split(BuildMessage(sub), '\n')| >= 5
    ensures Present(sub.phone) <==> StartsWith(Split(BuildMessage(sub), '\n')[4], PhoneLabel)
    ensures Present(sub.phone) && '\n' !in sub.phone.text ==> Split(BuildMessage(sub), '\n')[4] == PhoneLabel + sub.phone.text
  {
    FifthLineOfMessage(sub);
    var fifth := Split(BuildMessage(sub), '\n')[4];
    if Present(sub.phone) {
      assert '\n' !in PhoneLabel;
      SplitHead(PhoneLabel, sub.phone.text, '\n');
      if '\n' !in sub.phone.text {
        SplitNoSeparator(PhoneLabel + sub.phone.text, '\n');
      }
    } else {
      assert '\n' !in ServiceLabel;
      SplitHead(ServiceLabel, ServiceShown(sub.service), '\n');
      assert fifth[0] == ServiceLabel[0] != PhoneLabel[0];
    }
  }

  /** The fifth line of the message begins the phone line when a phone was
      given, and the service line otherwise. */
  lemma FifthLineOfMessage(sub: Submission)
    requires '\n' !in Show(sub.name) && '\n' !in Show(sub.email)
    ensures |Split(BuildMessage(sub), '\n')| >= 5
    ensures Split(BuildMessage(sub), '\n')[4]
         == Split(if Present(sub.phone) then PhoneLabel + sub.phone.text else ServiceLabel + ServiceShown(sub.service), '\n')[0]
  {
    LabelsOneLine();
    var name, email := NameLabel + Show(sub.name), EmailLabel + Show(sub.email);
    assert '\n' !in name && '\n' !in email;
    FifthLineOfPieces(Header, name, email, PhoneLines(sub.phone),
      ServiceLabel + ServiceShown(sub.service), MessageLabel, Show(sub.message), Footer);
  }

  lemma LabelsOneLine()
    ensures '\n' !in Header && '\n' !in NameLabel && '\n' !in EmailLabel
    ensures '\n' !in PhoneLabel && '\n' !in ServiceLabel
  {
    HeaderOneLine();
    assert '\n' !in "👤 *Nombre:* ";
    assert '\n' !in "📧 *Email:* ";
    FieldLabelsOneLine();
  }

  lemma HeaderOneLine()
    ensures '\n' !in Header
  {
    assert '\n' !in "🔒 *CONSULTA DESDE WEB - ASESORIASEGURIDAD*";
  }

  lemma FieldLabelsOneLine()
    ensures '\n' !in PhoneLabel && '\n' !in ServiceLabel
  {
    assert '\n' !in "📱 *Teléfono:* ";
    assert '\n' !in "🛡️ *Servicio de interés:* ";
  }

  lemma FifthLineOfPieces(header: string, name: string, email: string, phone: seq<string>,
                          service: string, heading: string, message: string, footer: string)
    requires |phone| <= 1
    requires '\n' !in header && '\n' !in name && '\n' !in email
    ensures |Split(Assemble(header, name, email, phone, service, heading, message, footer), '\n')| >= 5
    ensures Split(Assemble(header, name, email, phone, service, heading, message, footer), '\n')[4]
         == Split(if |phone| == 1 then phone[0] else service, '\n')[0]
  {
    var lines := [header, "", name, email] + phone + [service, "", heading, message, "", footer];
    LayoutOfPieces(header, name, email, phone, service, heading, message, footer);
    SplitOfJoin(lines, '\n');
    assert lines[4] == if |phone| == 1 then phone[0] else service;
    FifthPiece(lines, '\n');
  }

  /** When the first four pieces hold no separator, the fifth part of the
      split is the head of the fifth piece's own split. */
  lemma FifthPiece(parts: seq<string>, sep: char)
    requires |parts| >= 5
    requires forall k :: 0 <= k < 4 ==> sep !in parts[k]
    ensures |SplitAll(parts, sep)| >= 5
    ensures SplitAll(parts, sep)[4] == Split(parts[4], sep)[0]
  {
    SplitAllAppend(parts[..4], parts[4..], sep);
    assert parts[..4] + parts[4..] == parts;
    SplitAllOneLine(parts[..4], sep);
    assert SplitAll(parts[4..], sep) == Split(parts[4], sep) + SplitAll(parts[5..], sep);
  }

  /** Splits every piece and concatenates the results. */
  function SplitAll(parts: seq<string>, sep: char): seq<string> {
    if parts == [] then [] else Split(parts[0], sep) + SplitAll(parts[1..], sep)
  }

  lemma {:induction false} SplitOfJoin(parts: seq<string>, sep: char)
    requires |parts| > 0
    ensures Split(Join(parts, sep), sep) == SplitAll(parts, sep)
  {
    if |parts| > 1 {
      SplitAround(parts[0], sep, Join(parts[1..], sep));
      SplitOfJoin(parts[1..], sep);
    } else {
      assert SplitAll(parts[1..], sep) == [];
    }
  }

  lemma {:induction false} SplitAllAppend(a: seq<string>, b: seq<string>, sep: char)
    ensures SplitAll(a + b, sep) == SplitAll(a, sep) + SplitAll(b, sep)
  {
    if a == [] {
      assert a + b == b;
    } else {
      assert (a + b)[1..] == a[1..] + b;
      SplitAllAppend(a[1..], b, sep);
    }
  }

  lemma {:induction false} SplitAllOneLine(parts: seq<string>, sep: char)
    requires forall k :: 0 <= k < |parts| ==> sep !in parts[k]
    ensures SplitAll(parts, sep) == parts
  {
    if parts != [] {
      SplitNoSeparator(parts[0], sep);
      SplitAllOneLine(parts[1..], sep);
    }
  }

  /** A prefix without the separator stays at the head of the first piece. */
  lemma {:induction false} SplitHead(prefix: string, rest: string, sep: char)
    requires sep !in prefix
    ensures |Split(prefix + rest, sep)[0]| >= |prefix|
    ensures Split(prefix + rest, sep)[0][..|prefix|] == prefix
  {
    if prefix != [] {
      assert (prefix + rest)[1..] == prefix[1..] + rest;
      assert prefix == [prefix[0]] + prefix[1..];
      SplitHead(prefix[1..], rest, sep);
    }
  }

  /** Effects of one submit event, in order. */
  datatype Effect =
    | ShowError(text: string)   // error notice, removed again after five seconds
    | OpenChat(url: string)     // the messaging link, opened in a new tab
    | ShowSuccess               // success notice, removed again after five seconds
    | ResetForm                 // the form's fields return to their defaults

  const ChatLinkPrefix := "https://wa.me/56989956454?text="

  /** The submit handler. encode stands for encodeURIComponent. A rejected
      submission shows its notice and nothing else: no message, no link, no
      reset. An accepted one opens the link carrying the built message, then
      shows the success notice and resets the form. */
  function Submit(sub: Submission, encode: string -> string): (effects: seq<Effect>)
    ensures !Acceptable(sub) ==> effects == [ShowError(ValidateForm(sub).notice)]
    ensures Acceptable(sub) ==> effects == [OpenChat(ChatLinkPrefix + encode(BuildMessage(sub))), ShowSuccess, ResetForm]
  {
    var v := ValidateForm(sub);
    if v.Rejected? then [ShowError(v.notice)]
    else [OpenChat(ChatLinkPrefix + encode(BuildMessage(sub))), ShowSuccess, ResetForm]
  }
}
