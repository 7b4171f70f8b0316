/**
 * The request handlers of the authentication and generation controllers as
 * one service object. Its state is the cooldown map kept in process memory,
 * the one-time-code collection and the user table of the document store.
 */
module Controllers {
  import opened Common
  import opened Text
  import opened Cooldown
  import opened Store
  import opened Generation

  /** A signed session token for a user id; signing and expiry are not modelled. */
  datatype Token = Token(userId: UserId)

  /** The message handed to the mail provider: recipient address as given, and the code. */
  datatype Mail = Mail(to: string, code: string)

  /** The public projection of a user returned on login and by the current-user route. */
  datatype UserView = UserView(id: UserId, username: string, email: string, userType: int, credits: int)

  /** The projection returned after a credit update (it leaves out the role). */
  datatype CreditsView = CreditsView(id: UserId, username: string, email: string, credits: int)

  function View(id: UserId, u: User): UserView
  {
    UserView(id, u.username, u.email, u.userType, u.credits)
  }

  /** Every JSON response the handlers send. */
  datatype Reply =
    | EmailRequired
    | CooldownActive(cooldownSeconds: int)
    | OtpSent(email: string, cooldownSeconds: int)
    | SendFailed
    | EmailAndOtpRequired
    | InvalidOtp
    | LoggedIn(token: Token, user: UserView)
    | CurrentUser(user: UserView)
    | AdminRequired
    | UserList(rows: seq<UserRow>)
    | InvalidCredits
    | UserNotFound
    | CreditsUpdated(updated: CreditsView)
    | InsufficientCredits(credits: int)
    | NoImage
    | GenerationFailed
    | Generated(imageUrl: Option<string>, balance: int)
  {
    /** The HTTP status sent with the response. */
    function Status(): int
    {
      match this
      case EmailRequired | EmailAndOtpRequired | InvalidOtp | InvalidCredits | NoImage => 400
      case CooldownActive(_) => 429
      case AdminRequired | InsufficientCredits(_) => 403
      case UserNotFound => 404
      case SendFailed | GenerationFailed => 500
      case _ => 200
    }
  }

  class Service {
    /** Lower-cased address to the millisecond time of its last issued code. */
    var cooldowns: map<string, int>
    /** The one-time-code collection. */
    var otps: seq<OtpRecord>
    /** The user table; a user's id is its index. */
    var users: seq<User>

    ghost predicate Valid()
      reads this
    {
      && (forall key :: key in cooldowns ==> Lower(key) == key)
      && AtMostOnePerEmail(otps)
      && (forall r :: r in otps ==> Lower(r.email) == r.email)
      && UniqueEmails(users)
      && (forall id :: 0 <= id < |users| ==> users[id].credits >= 0)
    }

    /**
     * A freshly started process: the in-memory cooldown map is empty, while the
     * store already holds the users `seed` and the live codes `codes`.
     */
    constructor (seed: seq<User>, codes: seq<OtpRecord>)
      requires UniqueEmails(seed)
      requires forall id :: 0 <= id < |seed| ==> seed[id].credits >= 0
      requires AtMostOnePerEmail(codes)
      requires forall r :: r in codes ==> Lower(r.email) == r.email
      ensures Valid()
      ensures cooldowns == map[] && otps == codes && users == seed
    {
      cooldowns := map[];
      otps := codes;
      users := seed;
    }

    /** `setEmailCooldown`: stamps the lower-cased address with `now`. */
    method SetEmailCooldown(email: string, now: int)
      requires Valid()
      modifies this
      ensures Valid()
      ensures cooldowns == Stamp(old(cooldowns), email, now)
      ensures otps == old(otps) && users == old(users)
    {
      LowerIdempotent(email);
      cooldowns := cooldowns[Lower(email) := now];
    }

    /**
     * `sendOtp`. `now` is the clock when the cooldown is checked, `stampedAt`
     * the clock when it is set, `draw` the floored random number and
     * `delivered` whether the mail provider accepted the message. `mail` is
     * the message handed to the provider, if any.
     */
    method SendOtp(email: string, now: int, draw: nat, stampedAt: int, delivered: bool)
      returns (reply: Reply, mail: Option<Mail>)
      requires Valid()
      requires 100000 <= draw <= 999999
      modifies this
      ensures Valid()
      ensures users == old(users)
      // a missing address: 400, nothing stored, nothing sent
      ensures email == "" ==>
        reply == EmailRequired && mail == None && cooldowns == old(cooldowns) && otps == old(otps)
      // an active cooldown: 429 with the seconds left, nothing stored, nothing sent
      ensures email != "" && old(SecondsRemaining(cooldowns, email, now)) > 0 ==>
        && reply == CooldownActive(old(SecondsRemaining(cooldowns, email, now)))
        && mail == None && cooldowns == old(cooldowns) && otps == old(otps)
      // issuance: one new code replaces every earlier one, the cooldown is stamped before dispatch
      ensures email != "" && old(SecondsRemaining(cooldowns, email, now)) == 0 ==>
        && RecordsFor(otps, Lower(email)) == [OtpRecord(Lower(email), GenerateOtp(draw))]
        && (forall other :: other != Lower(email) ==> RecordsFor(otps, other) == old(RecordsFor(otps, other)))
        && cooldowns == Stamp(old(cooldowns), email, stampedAt)
        && mail == Some(Mail(email, GenerateOtp(draw)))
        && reply == if delivered then OtpSent(Lower(email), CooldownSeconds) else SendFailed
    {
      if email == "" {
        return EmailRequired, None;
      }
      var remaining := SecondsRemaining(cooldowns, email, now);
      if remaining > 0 {
        return CooldownActive(remaining), None;
      }
      var code := GenerateOtp(draw);
      var key := Lower(email);
      LowerIdempotent(email);
      ghost var before := otps;
      otps := RemoveEmail(otps, key);
      otps := otps + [OtpRecord(key, code)];
      assert otps == ReplaceCode(before, key, code);
      SetEmailCooldown(email, stampedAt);
      mail := Some(Mail(email, code));
      if !delivered {
        return SendFailed, mail;
      }
      reply := OtpSent(key, CooldownSeconds);
    }

    /**
     * `verifyOtp`. On a match the record is consumed before the user is
     * resolved; an unseen address gets a new ordinary user with 10 credits,
     * named `username` or else the part of the address as typed before its '@'.
     */
    method VerifyOtp(email: string, otp: string, username: string, now: int) returns (reply: Reply)
      requires Valid()
      modifies this
      ensures Valid()
      ensures cooldowns == old(cooldowns)
      ensures email == "" || otp == "" ==>
        reply == EmailAndOtpRequired && otps == old(otps) && users == old(users)
      ensures email != "" && otp != "" && OtpRecord(Lower(email), otp) !in old(otps) ==>
        reply == InvalidOtp && otps == old(otps) && users == old(users)
      ensures email != "" && otp != "" && OtpRecord(Lower(email), otp) in old(otps) ==>
        // exactly the matching record is consumed, so the code cannot be replayed
        && multiset(otps) + multiset{OtpRecord(Lower(email), otp)} == old(multiset(otps))
        && OtpRecord(Lower(email), otp) !in otps
        && RecordsFor(otps, Lower(email)) == []
        && (forall other :: other != Lower(email) ==> RecordsFor(otps, other) == old(RecordsFor(otps, other)))
        && match old(FindUser(users, Lower(email)))
           case Some(id) =>
             users == old(users) && reply == LoggedIn(Token(id), View(id, users[id]))
           case None =>
             var created := NewUser(Lower(email), if username != "" then username else LocalPart(email), now);
             users == old(users) + [created] && reply == LoggedIn(Token(|old(users)|), View(|old(users)|, created))
    {
      if email == "" || otp == "" {
        return EmailAndOtpRequired;
      }
      var key := Lower(email);
      var found := FindOtp(otps, key, otp);
      if found.None? {
        return InvalidOtp;
      }
      ConsumedCodeIsGone(otps, found.value);
      otps := RemoveAt(otps, found.value);
      var id: UserId;
      match FindUser(users, key) {
        case Some(existing) =>
          id := existing;
        case None =>
          var name := if username != "" then username else LocalPart(email);
          id := |users|;
          users := users + [NewUser(key, name, now)];
      }
      reply := LoggedIn(Token(id), View(id, users[id]));
    }

    /** `getCurrentUser`: the public projection of the authenticated caller. */
    method GetCurrentUser(callerId: UserId) returns (reply: Reply)
      requires Valid()
      requires callerId < |users|
      ensures reply.Status() == 200
      ensures reply.CurrentUser? && reply.user.id == callerId
      ensures reply.user.email == users[callerId].email && reply.user.username == users[callerId].username
      ensures reply.user.userType == users[callerId].userType && reply.user.credits == users[callerId].credits
    {
      reply := CurrentUser(View(callerId, users[callerId]));
    }

    /** `getAllUsers`: administrators only; every user, newest first. */
    method GetAllUsers(callerId: UserId) returns (reply: Reply)
      requires Valid()
      requires callerId < |users|
      ensures users[callerId].userType != Administrator ==> reply == AdminRequired
      ensures users[callerId].userType == Administrator ==>
        && reply.UserList?
        && NewestFirst(reply.rows)
        && multiset(reply.rows) == multiset(Listing(users))
        && |reply.rows| == |users|
        && (forall id :: 0 <= id < |users| ==> Row(id, users[id]) in reply.rows)
    {
      if users[callerId].userType != Administrator {
        return AdminRequired;
      }
      var rows := SortNewestFirst(Listing(users));
      assert |multiset(rows)| == |users|;
      forall id | 0 <= id < |users| ensures Row(id, users[id]) in rows {
        assert Listing(users)[id] in multiset(Listing(users));
      }
      reply := UserList(rows);
    }

    /**
     * `updateUserCredits`: administrators only; a present, non-negative value
     * overwrites the balance of an existing user.
     */
    method UpdateUserCredits(callerId: UserId, userId: UserId, credits: Option<int>) returns (reply: Reply)
      requires Valid()
      requires callerId < |users|
      modifies this
      ensures Valid()
      ensures cooldowns == old(cooldowns) && otps == old(otps)
      ensures old(users[callerId].userType) != Administrator ==>
        reply == AdminRequired && users == old(users)
      ensures old(users[callerId].userType) == Administrator && (credits.None? || credits.value < 0) ==>
        reply == InvalidCredits && users == old(users)
      ensures old(users[callerId].userType) == Administrator && credits.Some? && credits.value >= 0 && userId >= |old(users)| ==>
        reply == UserNotFound && users == old(users)
      ensures old(users[callerId].userType) == Administrator && credits.Some? && credits.value >= 0 && userId < |old(users)| ==>
        && |users| == |old(users)|
        && (forall id :: 0 <= id < |users| && id != userId ==> users[id] == old(users[id]))
        && users[userId] == old(users[userId]).(credits := credits.value)
        && reply == CreditsUpdated(CreditsView(userId, users[userId].username, users[userId].email, credits.value))
    {
      if users[callerId].userType != Administrator {
        return AdminRequired;
      }
      if credits.None? || credits.value < 0 {
        return InvalidCredits;
      }
      if userId >= |users| {
        return UserNotFound;
      }
      var u := users[userId].(credits := credits.value);
      users := users[userId := u];
      reply := CreditsUpdated(CreditsView(userId, u.username, u.email, u.credits));
    }

    /**
     * `generateImage`. `req.inference` stands for what the inference call
     * would return; `invoked` says whether the call was made.
     */
    method GenerateImage(callerId: UserId, req: Request) returns (reply: Reply, invoked: bool)
      requires Valid()
      requires callerId < |users|
      modifies this
      ensures Valid()
      ensures cooldowns == old(cooldowns) && otps == old(otps)
      ensures invoked <==> Invokes(old(users[callerId].credits), req.hasFile)
      ensures |users| == |old(users)|
      ensures forall id :: 0 <= id < |users| && id != callerId ==> users[id] == old(users[id])
      ensures users[callerId] == old(users[callerId]).(credits := Charge(old(users[callerId].credits), req))
      ensures old(users[callerId].credits) <= 0 ==> reply == InsufficientCredits(0)
      ensures old(users[callerId].credits) > 0 && !req.hasFile ==> reply == NoImage
      ensures invoked && req.inference.InferenceFailed? ==> reply == GenerationFailed
      ensures invoked && req.inference.Succeeded? ==>
        reply == Generated(ImageUrl(req.inference.output), old(users[callerId].credits) - 1)
    {
      if users[callerId].credits <= 0 {
        return InsufficientCredits(0), false;
      }
      if !req.hasFile {
        return NoImage, false;
      }
      invoked := true;
      match req.inference {
        case InferenceFailed =>
          reply := GenerationFailed;
        case Succeeded(output) =>
          var updated := users[callerId].(credits := users[callerId].credits - 1);
          users := users[callerId := updated];
          reply := Generated(ImageUrl(output), updated.credits);
      }
    }
  }

  /** The login example: issue, repeat too soon, log in, replay the code. */
  method LoginWalkthrough()
  {
    var service := new Service([], []);
    var email := "a@b.com";
    assert Lower(email) == email;
    var code := GenerateOtp(123456);
    var reply, mail := service.SendOtp(email, 1000, 123456, 1000, true);
    assert reply == OtpSent(email, 120);
    assert service.cooldowns == map[email := 1000];
    assert OtpRecord(email, code) in RecordsFor(service.otps, email);
    assert SecondsRemaining(service.cooldowns, email, 2000) == 119;
    reply, mail := service.SendOtp(email, 2000, 654321, 2000, true);
    assert reply == CooldownActive(119);
    reply := service.VerifyOtp(email, code, "", 3000);
    assert reply.LoggedIn? && reply.user.credits == 10 && reply.user.email == email;
    reply := service.VerifyOtp(email, code, "", 4000);
    assert reply == InvalidOtp;
  }
}
