/** The `/create-mailbox` handler and the `createMailbox` workflow it starts.
    The browser steps other than the retry loop are abstract: each either
    completes or throws with a message, and the two checks the source makes
    itself (the e-mail menu entry, the mailbox entry) are booleans. */
module Provisioning {
  import opened Text
  import Password
  import Identity
  import Navigation

  /** The creator the handler writes into every record. */
  const CreatedBy := "Elunic"
  const MissingFields := "Missing required fields"
  const CreationFailed := "Mailbox creation failed"
  const EmailMenuMissing := "Email dropdown could not be clicked"

  /** The three fields of the JSON body; `None` for a field that is absent
      or null. */
  datatype RequestBody = RequestBody(firstName: Option<string>, lastName: Option<string>, requestedBy: Option<string>)

  /** JavaScript truthiness of a body field: present and not empty. */
  predicate Truthy(v: Option<string>)
  {
    v.Some? && v.value != ""
  }

  predicate Complete(b: RequestBody)
  {
    Truthy(b.firstName) && Truthy(b.lastName) && Truthy(b.requestedBy)
  }

  /** The check of the handler and the record it builds. */
  function ValidateRequest(b: RequestBody): (r: Option<Identity.Freelancer>)
    ensures r.Some? <==> Complete(b)
    ensures r.Some? ==> r.value.createdBy == CreatedBy && r.value.firstName != ""
    ensures r.Some? ==> && Some(r.value.firstName) == b.firstName
                        && Some(r.value.lastName) == b.lastName
                        && Some(r.value.requestedBy) == b.requestedBy
  {
    if !Truthy(b.firstName) || !Truthy(b.lastName) || !Truthy(b.requestedBy) then None
    else Some(Identity.Freelancer(b.firstName.value, b.lastName.value, CreatedBy, b.requestedBy.value))
  }

  /** A browser step that the model does not look into. */
  datatype Step = Done | Throws(message: string)

  /** How the provider's console answers one run of the workflow. */
  datatype Console = Console(
    signIn: Step,          // launch, login, products page, domain link, settling delay
    menuExpanded: bool,    // the e-mail menu entry was found and clicked
    entryShown: Step,      // the mailbox entry became visible in time
    entryFound: bool,      // the mailbox entry could be selected
    answers: seq<Navigation.Click>,  // the answers to the clicks on the mailbox entry
    form: Step)            // "New mailbox", the form, typing and Save

  predicate Answerable(c: Console)
  {
    |c.answers| > Navigation.MaxRetries
  }

  /** What the workflow returns. */
  datatype Credentials = Credentials(email: string, password: string)

  /** What the workflow types into the four fields of the mailbox form. */
  datatype MailboxForm = MailboxForm(localAddress: string, password: string, passwordRepeat: string, description: string)

  datatype Result = Created(credentials: Credentials, form: MailboxForm) | Aborted(message: string)

  /** One run of the workflow with the clicks it issued on the mailbox entry. */
  datatype Run = Run(result: Result, clicks: nat)

  /** `createMailbox(freelancer)` against `console`, with `domain` as the
      managed domain and `draws` as the password generator's randomness. */
  function CreateMailbox(f: Identity.Freelancer, console: Console, domain: string, draws: Password.Draws): (r: Run)
    requires f.firstName != ""
    requires Password.WellFormed(draws) && Answerable(console)
    ensures r.clicks <= 1 + Navigation.MaxRetries
    ensures r.result.Created? ==> |r.result.credentials.password| == Password.Length
  {
    Navigation.ClicksBound(console.entryFound, console.answers);
    if console.signIn.Throws? then Run(Aborted(console.signIn.message), 0)
    else if !console.menuExpanded then Run(Aborted(EmailMenuMissing), 0)
    else if console.entryShown.Throws? then Run(Aborted(console.entryShown.message), 0)
    else
      var nav := Navigation.Navigate(console.entryFound, console.answers);
      if nav.outcome.Failed? then Run(Aborted(nav.outcome.message), nav.clicks)
      else if console.form.Throws? then Run(Aborted(console.form.message), nav.clicks)
      else
        var local := Identity.LocalPart(f.firstName, f.lastName);
        var password := Password.PasswordFrom(draws);
        Run(Created(Credentials(Identity.Address(local, domain), password),
                    MailboxForm(local, password, password, Identity.Description(f))),
            nav.clicks)
  }

  datatype Payload = ErrorBody(error: string, detail: Option<string>) | MailboxBody(email: string, password: string)

  datatype Reply = Reply(status: nat, payload: Payload)

  /** The reply, and the workflow run if the handler started one. */
  datatype Exchange = Exchange(reply: Reply, run: Option<Run>)

  /** The `/create-mailbox` handler: reject an incomplete body, otherwise
      run the workflow and answer with its result or its error. */
  function HandleCreateMailbox(body: RequestBody, console: Console, domain: string, draws: Password.Draws): (e: Exchange)
    requires Password.WellFormed(draws) && Answerable(console)
    ensures e.reply.status == 400 <==> !Complete(body)
    ensures e.reply.status == 400 <==> e.run.None?
    ensures e.reply.status == 200 || e.reply.status == 400 || e.reply.status == 500
    ensures e.reply.status == 200 <==> e.run.Some? && e.run.value.result.Created?
  {
    match ValidateRequest(body)
    case None => Exchange(Reply(400, ErrorBody(MissingFields, None)), None)
    case Some(f) =>
      var run := CreateMailbox(f, console, domain, draws);
      match run.result
      case Created(c, _) => Exchange(Reply(200, MailboxBody(c.email, c.password)), Some(run))
      case Aborted(m) => Exchange(Reply(500, ErrorBody(CreationFailed, Some(m))), Some(run))
  }

  /** An incomplete body is answered with 400 and the workflow is never
      started, whatever the console would have done. */
  lemma IncompleteRejected(body: RequestBody, console: Console, domain: string, draws: Password.Draws)
    requires Password.WellFormed(draws) && Answerable(console)
    requires !Complete(body)
    ensures HandleCreateMailbox(body, console, domain, draws) == Exchange(Reply(400, ErrorBody(MissingFields, None)), None)
  {
  }

  /** A complete body always starts the workflow on the record with the
      fixed creator, and is answered with 200 or 500. */
  lemma CompleteRunsWorkflow(body: RequestBody, console: Console, domain: string, draws: Password.Draws)
    requires Password.WellFormed(draws) && Answerable(console)
    requires Complete(body)
    ensures var e := HandleCreateMailbox(body, console, domain, draws);
      && e.run == Some(CreateMailbox(Identity.Freelancer(body.firstName.value, body.lastName.value, CreatedBy, body.requestedBy.value), console, domain, draws))
      && (e.reply.status == 200 || e.reply.status == 500)
  {
  }

  /** A 200 answer carries the derived address in the managed domain and a
      password meeting the composition policy, and comes only after the
      mailbox list was reached and the form was filled with those values. */
  lemma SuccessReply(body: RequestBody, console: Console, domain: string, draws: Password.Draws)
    requires Password.WellFormed(draws) && Answerable(console)
    requires HandleCreateMailbox(body, console, domain, draws).reply.status == 200
    ensures Complete(body)
    ensures var local := Identity.LocalPart(body.firstName.value, body.lastName.value);
      var e := HandleCreateMailbox(body, console, domain, draws);
      && e.reply.payload.MailboxBody?
      && e.reply.payload.email == Identity.Address(local, domain)
      && Password.MeetsPolicy(e.reply.payload.password)
      && e.run.Some? && e.run.value.result.Created?
      && e.run.value.result.form.localAddress == local
      && e.run.value.result.form.password == e.reply.payload.password
      && e.run.value.result.form.passwordRepeat == e.reply.payload.password
      && Navigation.Navigate(console.entryFound, console.answers).outcome.Reached?
  {
    if !Complete(body) {
      IncompleteRejected(body, console, domain, draws);
    }
    var f := ValidateRequest(body).value;
    CreatedRun(f, console, domain, draws);
    Password.GeneratedMeetsPolicy(draws);
  }

  /** A run that created the mailbox reached the list and used the derived
      values. */
  lemma CreatedRun(f: Identity.Freelancer, console: Console, domain: string, draws: Password.Draws)
    requires f.firstName != ""
    requires Password.WellFormed(draws) && Answerable(console)
    requires CreateMailbox(f, console, domain, draws).result.Created?
    ensures var local := Identity.LocalPart(f.firstName, f.lastName);
      var password := Password.PasswordFrom(draws);
      && Navigation.Navigate(console.entryFound, console.answers).outcome.Reached?
      && CreateMailbox(f, console, domain, draws).result
         == Created(Credentials(Identity.Address(local, domain), password),
                    MailboxForm(local, password, password, Identity.Description(f)))
  {
  }

  /** Every other answer is 400 for an incomplete body or 500 carrying the
      message of the step that threw. */
  lemma FailureReply(body: RequestBody, console: Console, domain: string, draws: Password.Draws)
    requires Password.WellFormed(draws) && Answerable(console)
    requires Complete(body)
    requires HandleCreateMailbox(body, console, domain, draws).reply.status != 200
    ensures var e := HandleCreateMailbox(body, console, domain, draws);
      && e.run.Some? && e.run.value.result.Aborted?
      && e.reply == Reply(500, ErrorBody(CreationFailed, Some(e.run.value.result.message)))
  {
  }

  /** The mailbox list not being reached aborts the workflow before the form,
      with the navigation's own error. */
  lemma NavigationFailureAborts(f: Identity.Freelancer, console: Console, domain: string, draws: Password.Draws)
    requires f.firstName != ""
    requires Password.WellFormed(draws) && Answerable(console)
    requires console.signIn == Done && console.menuExpanded && console.entryShown == Done
    requires Navigation.Navigate(console.entryFound, console.answers).outcome.Failed?
    ensures CreateMailbox(f, console, domain, draws)
         == Run(Aborted(Navigation.Navigate(console.entryFound, console.answers).outcome.message),
                Navigation.Navigate(console.entryFound, console.answers).clicks)
  {
  }

  /** The form carries what the source types: the local part of the returned
      address, the password twice, and a description that reads back into
      the creator, the requester and the full name. */
  lemma FormMatchesCredentials(f: Identity.Freelancer, console: Console, domain: string, draws: Password.Draws)
    requires f.firstName != ""
    requires Password.WellFormed(draws) && Answerable(console)
    requires CreateMailbox(f, console, domain, draws).result.Created?
    requires '@' !in domain && ',' !in f.createdBy && ',' !in f.requestedBy
    ensures var r := CreateMailbox(f, console, domain, draws).result;
      && Identity.SplitAddress(r.credentials.email) == Some((r.form.localAddress, domain))
      && r.form.password == r.form.passwordRepeat == r.credentials.password
      && Identity.ParseDescription(r.form.description)
         == Some(Identity.DescriptionFields(f.createdBy, f.requestedBy, f.firstName + " " + f.lastName))
  {
    var local := Identity.LocalPart(f.firstName, f.lastName);
    var password := Password.PasswordFrom(draws);
    var nav := Navigation.Navigate(console.entryFound, console.answers);
    assert CreateMailbox(f, console, domain, draws).result
        == Created(Credentials(Identity.Address(local, domain), password),
                   MailboxForm(local, password, password, Identity.Description(f)));
    Identity.AddressRoundTrip(local, domain);
    Identity.DescriptionRoundTrip(f);
  }

  /** A console that cooperates and lands on the list at the first click. */
  predicate Cooperative(c: Console)
  {
    && c.signIn == Done && c.menuExpanded && c.entryShown == Done && c.entryFound && c.form == Done
    && |c.answers| > 0 && c.answers[0].Landed? && Navigation.OnList(c.answers[0].url)
  }

  /** Against a cooperative console the workflow creates the mailbox after
      a single click on the mailbox entry. */
  lemma CooperativeRun(f: Identity.Freelancer, console: Console, domain: string, draws: Password.Draws)
    requires f.firstName != ""
    requires Password.WellFormed(draws) && Answerable(console)
    requires Cooperative(console)
    ensures var local := Identity.LocalPart(f.firstName, f.lastName);
      var password := Password.PasswordFrom(draws);
      CreateMailbox(f, console, domain, draws)
      == Run(Created(Credentials(Identity.Address(local, domain), password),
                     MailboxForm(local, password, password, Identity.Description(f))), 1)
  {
    Navigation.FirstClickOnList(console.answers);
  }

  /** A complete request against a cooperative console is answered with
      200, the derived address and the generated password. */
  lemma CooperativeReply(body: RequestBody, console: Console, domain: string, draws: Password.Draws)
    requires Complete(body)
    requires Password.WellFormed(draws) && Answerable(console)
    requires Cooperative(console)
    ensures var local := Identity.LocalPart(body.firstName.value, body.lastName.value);
      HandleCreateMailbox(body, console, domain, draws).reply
      == Reply(200, MailboxBody(Identity.Address(local, domain), Password.PasswordFrom(draws)))
    ensures HandleCreateMailbox(body, console, domain, draws).run.Some?
    ensures HandleCreateMailbox(body, console, domain, draws).run.value.clicks == 1
  {
    CooperativeRun(ValidateRequest(body).value, console, domain, draws);
  }

  /** The end-to-end scenario: Max Mustermann, requested by hr-team, against
      a cooperative console. */
  lemma MaxMustermann(first: string, last: string, requester: string, console: Console, domain: string, draws: Password.Draws)
    requires first == "Max" && last == "Mustermann" && requester == "hr-team"
    requires Password.WellFormed(draws) && Answerable(console)
    requires Cooperative(console)
    ensures var e := HandleCreateMailbox(RequestBody(Some(first), Some(last), Some(requester)), console, domain, draws);
      && e.reply.status == 200
      && e.reply.payload.MailboxBody?
      && e.reply.payload.email == Identity.Address("m.mustermann", domain)
      && Password.MeetsPolicy(e.reply.payload.password)
      && e.run.Some? && e.run.value.clicks == 1
  {
    var body := RequestBody(Some(first), Some(last), Some(requester));
    assert Complete(body);
    CooperativeReply(body, console, domain, draws);
    Identity.LocalPartMustermann(first, last);
    Password.GeneratedMeetsPolicy(draws);
    var e := HandleCreateMailbox(body, console, domain, draws);
    assert e.reply.payload.email == Identity.Address(Identity.LocalPart(first, last), domain);
  }

  /** A complete request against a console whose every click misses the
      list: three clicks, then a 500 with the navigation's error. */
  lemma NeverOnListFails(body: RequestBody, console: Console, domain: string, draws: Password.Draws)
    requires Complete(body)
    requires Password.WellFormed(draws) && Answerable(console)
    requires console.signIn == Done && console.menuExpanded && console.entryShown == Done
    requires console.entryFound
    requires forall j :: 0 <= j <= Navigation.MaxRetries ==> Navigation.Missed(console.answers[j])
    ensures var e := HandleCreateMailbox(body, console, domain, draws);
      && e.reply == Reply(500, ErrorBody(CreationFailed, Some(Navigation.StillNotOnList)))
      && e.run.Some? && e.run.value.clicks == 1 + Navigation.MaxRetries
  {
    Navigation.AlwaysMissing(console.answers);
  }
}
