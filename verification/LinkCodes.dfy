/**
 * One-time link codes: two Redis keys per code, one from the code to its member and one
 * from the member to the code, each with a day to live.
 */
module LinkCodes {
  import opened Domain

  const TTL: int := 24 * 60 * 60 * MICROS

  /** A key's value and the instant it expires. */
  datatype Held = Held(value: nat, expires: int)

  datatype Store = Store(byCode: map<nat, Held>, byMember: map<nat, Held>)

  function Get(m: map<nat, Held>, key: nat, now: int): Option<nat> {
    if key in m && now < m[key].expires then Some(m[key].value) else None
  }

  /** `readAt`, `codeSetAt` and `memberSetAt` are the clock at the three commands; `code` is the random draw. */
  datatype Event =
    | Create(member: nat, code: nat, readAt: int, codeSetAt: int, memberSetAt: int)
    | Redeem(code: nat, now: int)

  function Dropped(s: Store, member: nat, now: int): map<nat, Held> {
    match Get(s.byMember, member, now)
    case Some(previous) => s.byCode - {previous}
    case None => s.byCode
  }

  function Apply(s: Store, e: Event): Store {
    match e
    case Create(member, code, readAt, codeSetAt, memberSetAt) =>
      Store(Dropped(s, member, readAt)[code := Held(member, codeSetAt + TTL)],
            s.byMember[member := Held(code, memberSetAt + TTL)])
    case Redeem(code, now) =>
      match Get(s.byCode, code, now)
      case Some(member) => Store(s.byCode - {code}, s.byMember - {member})
      case None => s
  }

  /** The member a redemption returns. */
  function Redeemed(s: Store, e: Event): Option<nat> {
    if e.Redeem? then Get(s.byCode, e.code, e.now) else None
  }

  class LinkService {
    var byCode: map<nat, Held>
    var byMember: map<nat, Held>

    ghost function View(): Store
      reads this
    {
      Store(byCode, byMember)
    }

    method CreateLinkCode(member: nat, draw: nat, readAt: int, codeSetAt: int, memberSetAt: int)
      returns (code: nat)
      modifies this
      ensures code == draw && View() == Apply(old(View()), Create(member, draw, readAt, codeSetAt, memberSetAt))
    {
      var previous := Get(byMember, member, readAt);
      if previous.Some? {
        byCode := byCode - {previous.value};
      }
      code := draw;
      byCode := byCode[code := Held(member, codeSetAt + TTL)];
      byMember := byMember[member := Held(code, memberSetAt + TTL)];
    }

    method RedeemLinkCode(code: nat, now: int) returns (member: Option<nat>)
      modifies this
      ensures member == Redeemed(old(View()), Redeem(code, now))
      ensures View() == Apply(old(View()), Redeem(code, now))
    {
      member := Get(byCode, code, now);
      if member.None? {
        return;
      }
      byCode := byCode - {code};
      byMember := byMember - {member.value};
    }
  }

  // ---------------------------------------------------------------- runs

  function After(events: seq<Event>): Store {
    if events == [] then Store(map[], map[]) else Apply(After(events[..|events| - 1]), events[|events| - 1])
  }

  function Begin(e: Event): int {
    match e
    case Create(_, _, readAt, _, _) => readAt
    case Redeem(_, now) => now
  }

  function Finish(e: Event): int {
    match e
    case Create(_, _, _, _, memberSetAt) => memberSetAt
    case Redeem(_, now) => now
  }

  /** A serial run: each operation after the one before, its own commands in order, ending by `now`. */
  predicate Serial(events: seq<Event>, now: int) {
    if events == [] then true
    else
      var last := events[|events| - 1];
      && (last.Create? ==> last.readAt <= last.codeSetAt <= last.memberSetAt)
      && Finish(last) <= now
      && Serial(events[..|events| - 1], Begin(last))
  }

  /** A live code's member holds that code, in a key that lives at least as long. */
  ghost predicate Indexed(s: Store, now: int) {
    forall c :: c in s.byCode && now < s.byCode[c].expires ==>
      var m := s.byCode[c].value;
      m in s.byMember && s.byMember[m].value == c && s.byCode[c].expires <= s.byMember[m].expires
  }

  lemma ApplyKeepsIndex(s: Store, e: Event)
    requires Indexed(s, Begin(e))
    requires e.Create? ==> e.readAt <= e.codeSetAt <= e.memberSetAt
    ensures Indexed(Apply(s, e), Finish(e))
  {
  }

  /** The index invariant holds in every serial run, whatever codes are drawn. */
  lemma {:induction false} IndexHoldsForever(events: seq<Event>, now: int)
    requires Serial(events, now)
    ensures Indexed(After(events), now)
  {
    if events != [] {
      var last := events[|events| - 1];
      IndexHoldsForever(events[..|events| - 1], Begin(last));
      ApplyKeepsIndex(After(events[..|events| - 1]), last);
    }
  }

  /**
   * A code just issued redeems for its member for a day of 86,400 seconds, in microseconds,
   * and is dead from then on; the member's older live code is dead at once.
   */
  lemma FreshCodeLivesADay(s: Store, e: Event, now: int)
    requires e.Create?
    ensures Redeemed(Apply(s, e), Redeem(e.code, now)) == if now < e.codeSetAt + 86_400_000_000 then Some(e.member) else None
    ensures Get(Apply(s, e).byMember, e.member, now) == if now < e.memberSetAt + 86_400_000_000 then Some(e.code) else None
    ensures forall previous: nat :: Get(s.byMember, e.member, e.readAt) == Some(previous) && previous != e.code
              ==> Redeemed(Apply(s, e), Redeem(previous, now)) == None
  {
  }

  /** A redemption that succeeds takes both keys away; one that fails changes nothing. */
  lemma RedemptionConsumes(s: Store, code: nat, now: int, later: int)
    ensures var t := Apply(s, Redeem(code, now));
            && (Redeemed(s, Redeem(code, now)) == None ==> t == s)
            && (Redeemed(s, Redeem(code, now)).Some? ==>
                  && Redeemed(t, Redeem(code, later)) == None
                  && Get(t.byMember, Redeemed(s, Redeem(code, now)).value, later) == None)
  {
  }

  /** At any time a member has at most one live code. */
  lemma OneLiveCodePerMember(events: seq<Event>, now: int, a: nat, b: nat)
    requires Serial(events, now)
    requires Get(After(events).byCode, a, now).Some? && Get(After(events).byCode, a, now) == Get(After(events).byCode, b, now)
    ensures a == b
  {
    IndexHoldsForever(events, now);
  }

  function TimesIssued(events: seq<Event>, code: nat): nat {
    if events == [] then 0
    else
      var last := events[|events| - 1];
      TimesIssued(events[..|events| - 1], code) + (if last.Create? && last.code == code then 1 else 0)
  }

  function TimesRedeemed(events: seq<Event>, code: nat): nat {
    if events == [] then 0
    else
      var before, last := events[..|events| - 1], events[|events| - 1];
      TimesRedeemed(before, code) + (if last.Redeem? && last.code == code && Redeemed(After(before), last).Some? then 1 else 0)
  }

  /** Each issue of a code redeems at most once, and a stored code is an issue not yet redeemed. */
  lemma {:induction false} EachIssueRedeemsAtMostOnce(events: seq<Event>, code: nat)
    ensures TimesRedeemed(events, code) + (if code in After(events).byCode then 1 else 0) <= TimesIssued(events, code)
  {
    if events != [] {
      EachIssueRedeemsAtMostOnce(events[..|events| - 1], code);
    }
  }

  /** The member a code was last issued to. */
  function LastOwner(events: seq<Event>, code: nat): Option<nat> {
    if events == [] then None
    else
      var last := events[|events| - 1];
      if last.Create? && last.code == code then Some(last.member) else LastOwner(events[..|events| - 1], code)
  }

  /** The code a member was last issued. */
  function LastCode(events: seq<Event>, member: nat): Option<nat> {
    if events == [] then None
    else
      var last := events[|events| - 1];
      if last.Create? && last.member == member then Some(last.code) else LastCode(events[..|events| - 1], member)
  }

  lemma {:induction false} StoredKeysAreTheLast(events: seq<Event>)
    ensures forall c :: c in After(events).byCode ==> LastOwner(events, c) == Some(After(events).byCode[c].value)
    ensures forall m :: m in After(events).byMember ==> LastCode(events, m) == Some(After(events).byMember[m].value)
  {
    if events != [] {
      StoredKeysAreTheLast(events[..|events| - 1]);
    }
  }

  /** A redemption that succeeds returns the member the code was last issued to, and it is that member's latest code. */
  lemma RedemptionReturnsTheLastOwner(events: seq<Event>, code: nat, now: int)
    requires Serial(events, now) && Redeemed(After(events), Redeem(code, now)).Some?
    ensures var member := Redeemed(After(events), Redeem(code, now)).value;
            LastOwner(events, code) == Some(member) && LastCode(events, member) == Some(code)
  {
    IndexHoldsForever(events, now);
    StoredKeysAreTheLast(events);
  }

  /**
   * Issuing a code for one member is meant to invalidate only that member's old code.
   * Another member's code survives exactly when it was not drawn again and is not the
   * one the issuing member's own live key still names, after an earlier collision.
   */
  lemma OthersCodeSurvivesIff(s: Store, e: Event, code: nat)
    requires e.Create? && code in s.byCode && s.byCode[code].value != e.member
    ensures (code in Apply(s, e).byCode && Apply(s, e).byCode[code] == s.byCode[code])
            <==> code != e.code && Get(s.byMember, e.member, e.readAt) != Some(code)
  {
  }

  /** The collision that loses a code: member 1 draws member 0's code, then member 0 asks for a new one. */
  lemma CollisionLosesAFreshCode()
    ensures var events := [Create(0, 7, 0, 0, 0), Create(1, 7, 1, 1, 1), Create(0, 8, 2, 2, 2)];
            && Serial(events, 3)
            && LastCode(events, 1) == Some(7)
            && Redeemed(After(events), Redeem(7, 3)) == None
  {
    var a, b, c := Create(0, 7, 0, 0, 0), Create(1, 7, 1, 1, 1), Create(0, 8, 2, 2, 2);
    var events := [a, b, c];
    assert events[..2] == [a, b] && [a, b][..1] == [a] && [a][..0] == [];
    assert Serial([a], 1) && Serial([a, b], 2);
    assert After([a]) == Store(map[7 := Held(0, TTL)], map[0 := Held(7, TTL)]);
    assert After([a, b]) == Apply(After([a]), b);
    assert 7 in After([a, b]).byCode && After([a, b]).byCode[7] == Held(1, 1 + TTL);
    assert Get(After([a, b]).byMember, 0, 2) == Some(7);
  }
}
