/**
 * The per-e-mail issuance cooldown of the authentication controller: a map
 * from lower-cased address to the millisecond time of the last issued code.
 */
module Cooldown {
  import opened Text

  /** The cooldown window, two minutes in milliseconds. */
  const CooldownMs: int := 2 * 60 * 1000

  /** The window in whole seconds, as reported to a client after a successful issuance. */
  const CooldownSeconds: int := 120

  /** `Math.ceil(x / d)` for a positive numerator and divisor. */
  function CeilDiv(x: int, d: int): (q: int)
    requires x > 0 && d > 0
    ensures (q - 1) * d < x <= q * d
    ensures q >= 1
  {
    (x + d - 1) / d
  }

  /**
   * `checkEmailCooldown`: the whole seconds left before `email` may be sent a
   * new code at time `now`, or 0 when it may. A recorded time of 0 is falsy in
   * the source and counts as no entry.
   */
  function SecondsRemaining(cooldowns: map<string, int>, email: string, now: int): (r: int)
    ensures r >= 0
    ensures r == 0 <==>
      var key := Lower(email);
      key !in cooldowns || cooldowns[key] == 0 || now - cooldowns[key] >= CooldownMs
    ensures r > 0 ==>
      var elapsed := now - cooldowns[Lower(email)];
      (r - 1) * 1000 < CooldownMs - elapsed <= r * 1000
    ensures r > 0 && now >= cooldowns[Lower(email)] ==> r <= CooldownSeconds
  {
    var key := Lower(email);
    if key in cooldowns && cooldowns[key] != 0 then
      var elapsed := now - cooldowns[key];
      if elapsed < CooldownMs then CeilDiv(CooldownMs - elapsed, 1000) else 0
    else
      0
  }

  /** `setEmailCooldown`: the map after stamping `email` at time `now`. */
  function Stamp(cooldowns: map<string, int>, email: string, now: int): (m: map<string, int>)
    ensures m.Keys == cooldowns.Keys + {Lower(email)}
    ensures m[Lower(email)] == now
    ensures forall k :: k in cooldowns && k != Lower(email) ==> m[k] == cooldowns[k]
  {
    cooldowns[Lower(email) := now]
  }

  /** The cooldown ignores the case of the address. */
  lemma CaseInsensitive(cooldowns: map<string, int>, e1: string, e2: string, now: int)
    requires Lower(e1) == Lower(e2)
    ensures SecondsRemaining(cooldowns, e1, now) == SecondsRemaining(cooldowns, e2, now)
  {
  }

  /** Right after a stamp at a (non-zero) time, the full window remains for every spelling of the address. */
  lemma StampThenFullWindow(cooldowns: map<string, int>, email: string, other: string, now: int)
    requires now != 0
    requires Lower(other) == Lower(email)
    ensures SecondsRemaining(Stamp(cooldowns, email, now), other, now) == CooldownSeconds
  {
  }

  /** A stamp for one address leaves the cooldown of every other address as it was. */
  lemma StampLeavesOthers(cooldowns: map<string, int>, email: string, other: string, stampTime: int, now: int)
    requires Lower(other) != Lower(email)
    ensures SecondsRemaining(Stamp(cooldowns, email, stampTime), other, now) == SecondsRemaining(cooldowns, other, now)
  {
  }

  /** Once the window has passed since the stamp, a new code may be issued. */
  lemma StampExpires(cooldowns: map<string, int>, email: string, stampTime: int, now: int)
    requires now - stampTime >= CooldownMs
    ensures SecondsRemaining(Stamp(cooldowns, email, stampTime), email, now) == 0
  {
  }

  /**
   * Within the window after a stamp (taken on a non-negative clock), a repeat
   * request is refused with between 1 and 120 seconds to wait.
   */
  lemma StampBlocksRepeat(cooldowns: map<string, int>, email: string, stampTime: int, now: int)
    requires 0 < stampTime <= now < stampTime + CooldownMs
    ensures 1 <= SecondsRemaining(Stamp(cooldowns, email, stampTime), email, now) <= CooldownSeconds
  {
  }
}
