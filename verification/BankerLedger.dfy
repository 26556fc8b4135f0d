/** The bank's books (lab7/banker.cpp): what every process claims and holds after a run follows from
    the commands and answers alone. */
module BankerLedger {
  import opened BankerSpec

  /** One process as seen from the answers: whether it exists, its claim, and what it was granted. */
  datatype Account = Account(open: bool, claim: Vec, held: Vec)

  /** Only the process's own accepted commands touch its account. */
  ghost function Booked(a: Account, b: Bank, c: Command, p: int): Account
    requires Shape(b) && Claims(b) && Allowed(b, c) && (a.open ==> |a.held| == |b.resource|)
  {
    match c
    case New(pid, req) => if pid == p && Admitted(b, p, req) then Account(true, req, Zero(|req|)) else a
    case Request(pid, req) =>
      if pid == p && a.open && Granted(b, p, req) then a.(held := Plus(a.held, req)) else a
    case Terminate(pid) => if pid == p then Account(false, [], []) else a
    case Unknown(_, _) => a
  }

  predicate Matches(a: Account, b: Bank, p: int) {
    && (a.open <==> p in b.max)
    && (a.open ==> p in b.alloc && a.claim == b.max[p] && a.held == b.alloc[p])
  }

  lemma StepBooked(a: Account, b: Bank, c: Command, p: int)
    requires Shape(b) && Claims(b) && Allowed(b, c) && Matches(a, b, p)
    ensures Matches(Booked(a, b, c, p), Step(b, c), p)
  {
  }

  /** The account after a run. */
  ghost function Books(a: Account, b: Bank, cs: seq<Command>, p: int): (e: Account)
    requires Inv(b) && AllowedRun(b, cs) && Matches(a, b, p)
    ensures Matches(e, Run(b, cs), p)
    decreases |cs|
  {
    if cs == [] then a
    else
      StepKeeps(b, cs[0]);
      StepBooked(a, b, cs[0], p);
      Books(Booked(a, b, cs[0], p), Step(b, cs[0]), cs[1..], p)
  }

  /** After every run from the start, a process exists exactly when its account is open, and then its
      claim, its allocation and its need are those of the account. */
  lemma RunMatchesBooks(resource: Vec, cs: seq<Command>, p: int)
    requires (OpeningInv(resource); AllowedRun(Opening(resource), cs))
    ensures (OpeningInv(resource);
             var a, e := Books(Account(false, [], []), Opening(resource), cs, p), Run(Opening(resource), cs);
             && (p in e.max <==> a.open)
             && (a.open ==> e.max[p] == a.claim && e.alloc[p] == a.held && e.need[p] == Minus(a.claim, a.held)))
  {
    OpeningInv(resource);
    var a := Books(Account(false, [], []), Opening(resource), cs, p);
  }
}
