/**
 * The records the controllers keep in the document store, and the meaning of
 * the store queries they issue (`deleteMany`, `findOne`, `find().sort()`),
 * written as functions over in-memory collections.
 */
module Store {
  import opened Common

  /** An issued one-time code: the lower-cased address and the code string. */
  datatype OtpRecord = OtpRecord(email: string, code: string)

  /** A user document. `userType` is 1 for an ordinary user and 2 for an administrator. */
  datatype User = User(email: string, username: string, userType: int, credits: int, createdAt: int)

  /** A user's id is its position in the user table: users are only ever appended. */
  type UserId = nat

  const OrdinaryUser: int := 1
  const Administrator: int := 2
  const StartingCredits: int := 10

  // ----- OTP records -----

  /** The records held for `email`, in store order. */
  function RecordsFor(s: seq<OtpRecord>, email: string): (r: seq<OtpRecord>)
    ensures |r| <= |s|
    ensures forall x :: x in r ==> x in s && x.email == email
    ensures forall x :: x in s && x.email == email ==> x in r
  {
    if s == [] then []
    else (if s[0].email == email then [s[0]] else []) + RecordsFor(s[1..], email)
  }

  /** The invariant the issuer keeps: no address has two live codes. */
  ghost predicate AtMostOnePerEmail(s: seq<OtpRecord>)
  {
    forall email :: |RecordsFor(s, email)| <= 1
  }

  lemma {:induction false} RecordsForAppend(a: seq<OtpRecord>, b: seq<OtpRecord>)
    ensures forall email :: RecordsFor(a + b, email) == RecordsFor(a, email) + RecordsFor(b, email)
    decreases |a|
  {
    if a != [] {
      RecordsForAppend(a[1..], b);
      assert (a + b)[1..] == a[1..] + b;
    } else {
      assert a + b == b;
    }
  }

  /** `Otp.deleteMany({ email })`: every record for `email` is gone, every other one stays. */
  function RemoveEmail(s: seq<OtpRecord>, email: string): (r: seq<OtpRecord>)
    ensures forall x :: x in r ==> x in s
    ensures RecordsFor(r, email) == []
    ensures forall other :: other != email ==> RecordsFor(r, other) == RecordsFor(s, other)
  {
    if s == [] then []
    else if s[0].email == email then RemoveEmail(s[1..], email)
    else
      var rest := RemoveEmail(s[1..], email);
      assert ([s[0]] + rest)[1..] == rest;
      [s[0]] + rest
  }

  /**
   * `deleteMany` followed by `create`: the code store after issuing `code`
   * to `email`. Exactly that one record is held for `email`; the records of
   * every other address are untouched.
   */
  function ReplaceCode(s: seq<OtpRecord>, email: string, code: string): (r: seq<OtpRecord>)
    ensures RecordsFor(r, email) == [OtpRecord(email, code)]
    ensures forall other :: other != email ==> RecordsFor(r, other) == RecordsFor(s, other)
    ensures AtMostOnePerEmail(s) ==> AtMostOnePerEmail(r)
  {
    var r := RemoveEmail(s, email) + [OtpRecord(email, code)];
    RecordsForAppend(RemoveEmail(s, email), [OtpRecord(email, code)]);
    assert forall other :: (RecordsFor([OtpRecord(email, code)], other)
      == if other == email then [OtpRecord(email, code)] else []);
    r
  }

  /** `Otp.findOne({ email, otp })`: the position of the first record with that address and exactly that code. */
  function FindOtp(s: seq<OtpRecord>, email: string, code: string): (r: Option<nat>)
    ensures r.Some? ==> r.value < |s| && s[r.value] == OtpRecord(email, code)
    ensures r.None? <==> OtpRecord(email, code) !in s
  {
    if s == [] then None
    else if s[0] == OtpRecord(email, code) then Some(0)
    else match FindOtp(s[1..], email, code)
      case None => None
      case Some(i) => Some(i + 1)
  }

  /** `Otp.deleteOne({ _id })`: the store without the record at position `i`. */
  function RemoveAt(s: seq<OtpRecord>, i: nat): (r: seq<OtpRecord>)
    requires i < |s|
    ensures multiset(r) + multiset{s[i]} == multiset(s)
    ensures |RecordsFor(r, s[i].email)| + 1 == |RecordsFor(s, s[i].email)|
    ensures forall other :: other != s[i].email ==> RecordsFor(r, other) == RecordsFor(s, other)
  {
    assert s == s[..i] + [s[i]] + s[i + 1..];
    RecordsForAppend(s[..i], [s[i]]);
    RecordsForAppend(s[..i] + [s[i]], s[i + 1..]);
    RecordsForAppend(s[..i], s[i + 1..]);
    s[..i] + s[i + 1..]
  }

  /** A code just issued for an address is found by the matching lookup. */
  lemma IssuedCodeIsFound(s: seq<OtpRecord>, email: string, code: string)
    ensures FindOtp(ReplaceCode(s, email, code), email, code).Some?
  {
  }

  /** Issuing a new code for an address invalidates every earlier, different code for it. */
  lemma ReissueInvalidates(s: seq<OtpRecord>, email: string, oldCode: string, newCode: string)
    requires oldCode != newCode
    ensures FindOtp(ReplaceCode(s, email, newCode), email, oldCode).None?
  {
  }

  /** Consuming the only record of an address leaves no code for it: a second use of the same code fails. */
  lemma ConsumedCodeIsGone(s: seq<OtpRecord>, i: nat)
    requires AtMostOnePerEmail(s)
    requires i < |s|
    ensures RecordsFor(RemoveAt(s, i), s[i].email) == []
    ensures FindOtp(RemoveAt(s, i), s[i].email, s[i].code).None?
    ensures AtMostOnePerEmail(RemoveAt(s, i))
  {
  }

  // ----- Users -----

  /** No two users share an address. */
  ghost predicate UniqueEmails(users: seq<User>)
  {
    forall i, j :: 0 <= i < j < |users| ==> users[i].email != users[j].email
  }

  /** `User.findOne({ email })`: the id of the user with that address, if any. */
  function FindUser(users: seq<User>, email: string): (r: Option<UserId>)
    ensures r.Some? ==> r.value < |users| && users[r.value].email == email
    ensures r.None? <==> forall id :: 0 <= id < |users| ==> users[id].email != email
  {
    if users == [] then None
    else if users[0].email == email then Some(0)
    else match FindUser(users[1..], email)
      case None =>
        assert forall id :: 1 <= id < |users| ==> users[id] == users[1..][id - 1];
        None
      case Some(i) => Some(i + 1)
  }

  /** The user created on a first successful login. */
  function NewUser(email: string, username: string, now: int): (u: User)
    ensures u.email == email && u.username == username && u.createdAt == now
    ensures u.userType == OrdinaryUser && u.credits == StartingCredits
  {
    User(email, username, OrdinaryUser, StartingCredits, now)
  }

  /** One entry of the administrator's user listing. */
  datatype UserRow = UserRow(id: UserId, username: string, email: string, userType: int, credits: int, createdAt: int)

  function Row(id: UserId, u: User): UserRow
  {
    UserRow(id, u.username, u.email, u.userType, u.credits, u.createdAt)
  }

  /** Every user of the table, in id order. */
  function Listing(users: seq<User>): (rows: seq<UserRow>)
    ensures |rows| == |users|
    ensures forall id :: 0 <= id < |users| ==> rows[id] == Row(id, users[id])
  {
    seq(|users|, id requires 0 <= id < |users| => Row(id, users[id]))
  }

  /** `sort({ createdAt: -1 })`: newest first. */
  ghost predicate NewestFirst(rows: seq<UserRow>)
  {
    forall i, j :: 0 <= i < j < |rows| ==> rows[i].createdAt >= rows[j].createdAt
  }

  /** Putting in front a row no older than any other keeps the order. */
  lemma PrependNewest(y: UserRow, rows: seq<UserRow>)
    requires NewestFirst(rows)
    requires forall k :: 0 <= k < |rows| ==> y.createdAt >= rows[k].createdAt
    ensures NewestFirst([y] + rows)
  {
  }

  /** Every row of `rows` is no newer than `bound`. */
  ghost predicate NoNewerThan(rows: seq<UserRow>, bound: int)
  {
    forall k :: 0 <= k < |rows| ==> rows[k].createdAt <= bound
  }

  lemma NoNewerThanByMultiset(a: seq<UserRow>, b: seq<UserRow>, bound: int)
    requires multiset(a) == multiset(b)
    requires NoNewerThan(b, bound)
    ensures NoNewerThan(a, bound)
  {
    forall k | 0 <= k < |a| ensures a[k].createdAt <= bound {
      assert a[k] in multiset(b);
      var m :| 0 <= m < |b| && b[m] == a[k];
    }
  }

  function InsertByDate(x: UserRow, rows: seq<UserRow>): (r: seq<UserRow>)
    requires NewestFirst(rows)
    ensures NewestFirst(r)
    ensures multiset(r) == multiset(rows) + multiset{x}
  {
    if rows == [] || x.createdAt >= rows[0].createdAt then
      PrependNewest(x, rows);
      [x] + rows
    else
      var rest := InsertByDate(x, rows[1..]);
      assert rows == [rows[0]] + rows[1..];
      assert NoNewerThan(rows[1..] + [x], rows[0].createdAt);
      assert multiset(rest) == multiset(rows[1..] + [x]);
      NoNewerThanByMultiset(rest, rows[1..] + [x], rows[0].createdAt);
      PrependNewest(rows[0], rest);
      [rows[0]] + rest
  }

  /** The rows sorted newest first; no row is lost or added. */
  function SortNewestFirst(rows: seq<UserRow>): (r: seq<UserRow>)
    ensures NewestFirst(r)
    ensures multiset(r) == multiset(rows)
  {
    if rows == [] then []
    else
      assert rows == [rows[0]] + rows[1..];
      InsertByDate(rows[0], SortNewestFirst(rows[1..]))
  }
}
