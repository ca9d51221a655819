/** The "buy subscription" notification use case and its two collaborators
    as test doubles: a user gateway that stores users without any check,
    and a mailer that records every email sent to it.

    Every mutable array of the doubles is modelled as a value: an operation
    returns the new state instead of changing it in place, so a query
    (`list`, `sentEmailTo`) cannot change anything.
 */
module ShadowServices {

  /** An email address, as a plain string. */
  type EmailAddress = string

  /** A message template. The payload schema of the only template in use is
      empty, so no payload is carried (see `Email`). */
  datatype Mailable = Mailable(subject: string, body: string)

  const BuySubscriptionMailable: Mailable := Mailable("Buy subscription", "Pretty please")

  /** An email: a template and the address it goes to. */
  datatype Email = Email(mailable: Mailable, recipient: EmailAddress)

  datatype User = User(email: EmailAddress, hasSubscription: bool)

  // ---------------------------------------------------------------------
  // The non-checking in-memory user gateway.

  datatype UserGateway = UserGateway(users: seq<User>)

  /** A freshly built gateway stores nobody. */
  function EmptyGateway(): (g: UserGateway)
    ensures |g.users| == 0
  {
    UserGateway([])
  }

  /** The `list` operation: the stored users, in insertion order. */
  function ListUsers(g: UserGateway): (r: seq<User>)
    ensures |r| == |g.users|
    ensures forall i :: 0 <= i < |r| ==> r[i] == g.users[i]
  {
    g.users
  }

  /** The `create` operation of this gateway: it always appends, so the
      same user may be stored several times. */
  function CreateUser(g: UserGateway, user: User): (r: UserGateway)
    ensures |r.users| == |g.users| + 1
    ensures r.users[..|g.users|] == g.users
    ensures r.users[|g.users|] == user
    ensures multiset(r.users)[user] == multiset(g.users)[user] + 1
  {
    UserGateway(g.users + [user])
  }

  /** Creating the same user twice stores it twice; nothing is refused. */
  lemma CreateAllowsDuplicates(g: UserGateway, user: User)
    ensures multiset(CreateUser(CreateUser(g, user), user).users)[user] == multiset(g.users)[user] + 2
    ensures |CreateUser(CreateUser(g, user), user).users| == |g.users| + 2
  {
  }

  // ---------------------------------------------------------------------
  // The recording test mailer.

  datatype TestMailer = TestMailer(sentMails: seq<Email>)

  /** Some email of `mails` went to `address`. */
  predicate SentTo(mails: seq<Email>, address: EmailAddress)
  {
    exists i :: 0 <= i < |mails| && mails[i].recipient == address
  }

  /** A freshly built mailer has sent nothing. */
  function EmptyMailer(): (m: TestMailer)
    ensures |m.sentMails| == 0
    ensures forall address :: !SentEmailTo(m, address)
  {
    TestMailer([])
  }

  /** The `sendEmail` operation: the email is recorded after every email
      recorded before, which stay as they were. */
  function SendEmail(m: TestMailer, email: Email): (r: TestMailer)
    ensures |r.sentMails| == |m.sentMails| + 1
    ensures r.sentMails[..|m.sentMails|] == m.sentMails
    ensures r.sentMails[|m.sentMails|] == email
  {
    TestMailer(m.sentMails + [email])
  }

  /** The scan behind `sentEmailTo`: does some recorded email go to
      `address`? */
  function AnySentTo(mails: seq<Email>, address: EmailAddress): (b: bool)
    ensures b <==> SentTo(mails, address)
    decreases |mails|
  {
    if mails == [] then false
    else if mails[0].recipient == address then true
    else
      var rest := AnySentTo(mails[1..], address);
      assert SentTo(mails, address) ==> SentTo(mails[1..], address) by {
        if SentTo(mails, address) {
          var i :| 0 <= i < |mails| && mails[i].recipient == address;
          assert mails[1..][i - 1] == mails[i];
        }
      }
      assert SentTo(mails[1..], address) ==> SentTo(mails, address) by {
        if SentTo(mails[1..], address) {
          var i :| 0 <= i < |mails[1..]| && mails[1..][i].recipient == address;
          assert mails[i + 1] == mails[1..][i];
        }
      }
      rest
  }

  /** The `sentEmailTo` query: true exactly when some recorded email has
      `address` as its recipient. */
  function SentEmailTo(m: TestMailer, address: EmailAddress): (b: bool)
    ensures b <==> SentTo(m.sentMails, address)
  {
    AnySentTo(m.sentMails, address)
  }

  /** After `sendEmail`, `sentEmailTo` answers true for the new recipient
      and as before for every other address. */
  lemma SendEmailThenSentTo(m: TestMailer, email: Email, address: EmailAddress)
    ensures SentEmailTo(SendEmail(m, email), address) <==> SentEmailTo(m, address) || email.recipient == address
  {
    var r := SendEmail(m, email);
    if SentEmailTo(m, address) {
      var i :| 0 <= i < |m.sentMails| && m.sentMails[i].recipient == address;
      assert r.sentMails[i] == m.sentMails[i];
    }
    if SentEmailTo(r, address) && email.recipient != address {
      var i :| 0 <= i < |r.sentMails| && r.sentMails[i].recipient == address;
      assert i < |m.sentMails|;
      assert r.sentMails[i] == m.sentMails[i];
    }
  }

  // ---------------------------------------------------------------------
  // The use case.

  /** The filter step: the users without a subscription, in list order,
      each as many times as it is stored. */
  function NonSubscribed(users: seq<User>): (r: seq<User>)
    ensures |r| <= |users|
    ensures forall i :: 0 <= i < |r| ==> !r[i].hasSubscription
    ensures forall u :: multiset(r)[u] == (if u.hasSubscription then 0 else multiset(users)[u])
    decreases |users|
  {
    if users == [] then []
    else
      var rest := NonSubscribed(users[1..]);
      assert users == [users[0]] + users[1..];
      assert multiset(users) == multiset{users[0]} + multiset(users[1..]);
      if users[0].hasSubscription then rest else [users[0]] + rest
  }

  /** The email a non-subscribed user receives. */
  function BuySubscriptionEmail(user: User): (e: Email)
    ensures e.mailable == BuySubscriptionMailable
    ensures e.recipient == user.email
  {
    Email(BuySubscriptionMailable, user.email)
  }

  /** The map step: one buy-subscription email per user, in the same
      order, each addressed to its user. */
  function ToEmails(users: seq<User>): (r: seq<Email>)
    ensures |r| == |users|
    ensures forall i :: 0 <= i < |r| ==> r[i].mailable == BuySubscriptionMailable
    ensures forall i :: 0 <= i < |r| ==> r[i].recipient == users[i].email
    decreases |users|
  {
    if users == [] then [] else [BuySubscriptionEmail(users[0])] + ToEmails(users[1..])
  }

  /** The emails the use case produces from the listed users: filter, then
      map. */
  function BuySubscriptionEmails(users: seq<User>): seq<Email>
  {
    ToEmails(NonSubscribed(users))
  }

  /** The sequential `forEach` over the emails, each handed to `sendEmail`
      before the next one. */
  function SendEach(m: TestMailer, emails: seq<Email>): (r: TestMailer)
    ensures r.sentMails == m.sentMails + emails
    decreases |emails|
  {
    if emails == [] then m
    else
      var r := SendEach(SendEmail(m, emails[0]), emails[1..]);
      assert (m.sentMails + [emails[0]]) + emails[1..] == m.sentMails + emails;
      r
  }

  /** The `sendBuySubscriptionEmail` use case: list the users, keep the
      ones without a subscription, and send each of them the
      buy-subscription email in list order. The gateway is only read. */
  function SendBuySubscriptionEmail(g: UserGateway, m: TestMailer): (r: TestMailer)
    ensures r.sentMails == m.sentMails + BuySubscriptionEmails(g.users)
    ensures |r.sentMails| == |m.sentMails| + |NonSubscribed(g.users)|
    ensures r.sentMails[..|m.sentMails|] == m.sentMails
    ensures forall i :: |m.sentMails| <= i < |r.sentMails| ==> r.sentMails[i].mailable == BuySubscriptionMailable
  {
    SendEach(m, BuySubscriptionEmails(ListUsers(g)))
  }

  /** The filter keeps the relative order of the users it keeps. */
  lemma {:induction false} NonSubscribedAppend(a: seq<User>, b: seq<User>)
    ensures NonSubscribed(a + b) == NonSubscribed(a) + NonSubscribed(b)
    decreases |a|
  {
    if a == [] {
      assert a + b == b;
    } else {
      assert (a + b)[0] == a[0];
      assert (a + b)[1..] == a[1..] + b;
      NonSubscribedAppend(a[1..], b);
    }
  }

  lemma ToEmailsAppend(a: seq<User>, b: seq<User>)
    ensures ToEmails(a + b) == ToEmails(a) + ToEmails(b)
  {
    var l, r := ToEmails(a + b), ToEmails(a) + ToEmails(b);
    forall i | 0 <= i < |l|
      ensures l[i] == r[i]
    {
      if i < |a| {
        assert (a + b)[i] == a[i];
      } else {
        assert (a + b)[i] == b[i - |a|];
      }
    }
  }

  /** Filtering and mapping distribute over concatenation: the emails of
      a list are the emails of its first part followed by those of the
      rest, so they follow the users' list order. */
  lemma BuySubscriptionEmailsInOrder(a: seq<User>, b: seq<User>)
    ensures BuySubscriptionEmails(a + b) == BuySubscriptionEmails(a) + BuySubscriptionEmails(b)
  {
    NonSubscribedAppend(a, b);
    ToEmailsAppend(NonSubscribed(a), NonSubscribed(b));
  }

  /** One user on its own: an email exactly when it has no subscription. */
  lemma BuySubscriptionEmailsSingle(user: User)
    ensures BuySubscriptionEmails([user])
            == (if user.hasSubscription then [] else [Email(BuySubscriptionMailable, user.email)])
  {
    assert [user][1..] == [];
  }

  /** Some stored user without a subscription has `address`. */
  predicate NonSubscribedHas(users: seq<User>, address: EmailAddress)
  {
    exists i :: 0 <= i < |users| && !users[i].hasSubscription && users[i].email == address
  }

  lemma SentToAppend(x: seq<Email>, y: seq<Email>, address: EmailAddress)
    ensures SentTo(x + y, address) <==> SentTo(x, address) || SentTo(y, address)
  {
    if SentTo(x, address) {
      var i :| 0 <= i < |x| && x[i].recipient == address;
      assert (x + y)[i] == x[i];
    }
    if SentTo(y, address) {
      var i :| 0 <= i < |y| && y[i].recipient == address;
      assert (x + y)[|x| + i] == y[i];
    }
    if SentTo(x + y, address) {
      var i :| 0 <= i < |x + y| && (x + y)[i].recipient == address;
      if i < |x| {
        assert (x + y)[i] == x[i];
      } else {
        assert (x + y)[i] == y[i - |x|];
      }
    }
  }

  /** The emails of the use case reach exactly the addresses of the users
      without a subscription. */
  lemma BuySubscriptionEmailsReach(users: seq<User>, address: EmailAddress)
    ensures SentTo(BuySubscriptionEmails(users), address) <==> NonSubscribedHas(users, address)
  {
    var filtered := NonSubscribed(users);
    var emails := ToEmails(filtered);
    if NonSubscribedHas(users, address) {
      var i :| 0 <= i < |users| && !users[i].hasSubscription && users[i].email == address;
      assert users[i] in multiset(users);
      assert multiset(filtered)[users[i]] == multiset(users)[users[i]];
      assert users[i] in multiset(filtered);
      var k :| 0 <= k < |filtered| && filtered[k] == users[i];
      assert emails[k].recipient == address;
    }
    if SentTo(emails, address) {
      var k :| 0 <= k < |emails| && emails[k].recipient == address;
      assert filtered[k] in multiset(filtered);
      assert !filtered[k].hasSubscription;
      assert filtered[k] in multiset(users);
      var j :| 0 <= j < |users| && users[j] == filtered[k];
    }
  }

  /** After the use case, `sentEmailTo(address)` is true exactly when the
      mailer had already sent to `address` or some user without a
      subscription has that address. */
  lemma SentEmailToAfterUseCase(g: UserGateway, m: TestMailer, address: EmailAddress)
    ensures SentEmailTo(SendBuySubscriptionEmail(g, m), address)
            <==> SentEmailTo(m, address) || NonSubscribedHas(g.users, address)
  {
    SentToAppend(m.sentMails, BuySubscriptionEmails(g.users), address);
    BuySubscriptionEmailsReach(g.users, address);
  }

  /** A subscribed user who shares an address with a user without a
      subscription is reported as mailed too: the filter looks only at the
      subscription flag, but the emails and `sentEmailTo` know a user only
      by its address. */
  lemma SharedAddressReportedAsMailed(address: EmailAddress)
    ensures SentEmailTo(SendBuySubscriptionEmail(UserGateway([User(address, true), User(address, false)]), EmptyMailer()), address)
  {
    var g := UserGateway([User(address, true), User(address, false)]);
    assert !g.users[1].hasSubscription && g.users[1].email == address;
    SentEmailToAfterUseCase(g, EmptyMailer(), address);
  }

  /** A stored user without a subscription is sent the email. */
  lemma SendsEmailToNonPayingUser(user: User)
    requires !user.hasSubscription
    ensures SentEmailTo(SendBuySubscriptionEmail(CreateUser(EmptyGateway(), user), EmptyMailer()), user.email)
  {
    var g := CreateUser(EmptyGateway(), user);
    assert g.users[0] == user;
    SentEmailToAfterUseCase(g, EmptyMailer(), user.email);
  }

  /** A stored user with a subscription is not sent the email. */
  lemma NoEmailToPaidUser(user: User)
    requires user.hasSubscription
    ensures !SentEmailTo(SendBuySubscriptionEmail(CreateUser(EmptyGateway(), user), EmptyMailer()), user.email)
  {
    var g := CreateUser(EmptyGateway(), user);
    SentEmailToAfterUseCase(g, EmptyMailer(), user.email);
  }
}
