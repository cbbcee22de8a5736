/** How the runtime shares out transaction fees and tips: 80% to the treasury, 20% to the block author. */
module FeeSplit {

  /** The largest balance, an unsigned 128-bit number. */
  const MAX_BALANCE: nat := 0x1_0000_0000_0000_0000_0000_0000_0000_0000 - 1

  function SaturatingMul(a: nat, b: nat): nat {
    if a * b <= MAX_BALANCE then a * b else MAX_BALANCE
  }

  function SaturatingAdd(a: nat, b: nat): nat {
    if a + b <= MAX_BALANCE then a + b else MAX_BALANCE
  }

  /** The part worth first out of first + second, rounded down, and the remainder. */
  function Ration(amount: nat, first: nat, second: nat): (nat, nat)
    requires first + second > 0
  {
    var share := SaturatingMul(amount, first) / (first + second);
    var part := if share <= amount then share else amount;
    (part, amount - part)
  }

  /** The (treasury, author) shares of one payment: the fee, then possibly a tip; anything further is ignored. */
  function Shares(feesThenTips: seq<nat>): (nat, nat) {
    if feesThenTips == [] then (0, 0)
    else
      var fee := Ration(feesThenTips[0], 80, 20);
      if |feesThenTips| == 1 then fee
      else
        var tip := Ration(feesThenTips[1], 80, 20);
        (SaturatingAdd(fee.0, tip.0), SaturatingAdd(fee.1, tip.1))
  }

  /** Everything handed out so far. What would go to a block without a known author is burned. */
  datatype Books = Books(treasury: nat, author: nat, burned: nat)

  function Settle(books: Books, feesThenTips: seq<nat>, authorKnown: bool): Books {
    var (treasury, author) := Shares(feesThenTips);
    Books(books.treasury + treasury,
          books.author + if authorKnown then author else 0,
          books.burned + if authorKnown then 0 else author)
  }

  class DealWithFees {
    var treasury: nat
    var author: nat
    var burned: nat

    function State(): Books
      reads this
    {
      Books(treasury, author, burned)
    }

    constructor ()
      ensures State() == Books(0, 0, 0)
    {
      treasury, author, burned := 0, 0, 0;
    }

    method OnUnbalanceds(feesThenTips: seq<nat>, authorKnown: bool)
      modifies this
      ensures State() == Settle(old(State()), feesThenTips, authorKnown)
      ensures treasury == old(treasury) + TreasuryPart(feesThenTips)
      ensures author == old(author) + if authorKnown then AuthorPart(feesThenTips) else 0
      ensures burned == old(burned) + if authorKnown then 0 else AuthorPart(feesThenTips)
    {
      SharesAreTheParts(feesThenTips);
      var next := 0;
      if next < |feesThenTips| {
        var fees := feesThenTips[next];
        next := next + 1;
        var split := Ration(fees, 80, 20);
        if next < |feesThenTips| {
          var tips := feesThenTips[next];
          next := next + 1;
          var (toTreasury, toAuthor) := Ration(tips, 80, 20);
          split := (SaturatingAdd(split.0, toTreasury), SaturatingAdd(split.1, toAuthor));
        }
        treasury := treasury + split.0;
        OnAuthor(split.1, authorKnown);
      }
    }

    /** The author as a fee sink. */
    method OnAuthor(amount: nat, authorKnown: bool)
      modifies this
      ensures State() == Books(old(treasury), old(author) + (if authorKnown then amount else 0),
                               old(burned) + (if authorKnown then 0 else amount))
    {
      if authorKnown {
        author := author + amount;
      } else {
        burned := burned + amount;
      }
    }
  }

  // ----- One payment -----

  /** Four fifths of an amount, rounded down, except that eighty times the amount is cut off at 128 bits first. */
  function FourFifths(amount: nat): nat {
    (if 80 * amount <= MAX_BALANCE then 80 * amount else MAX_BALANCE) / 100
  }

  /** What the treasury gets of a fee and possibly a tip. */
  function TreasuryPart(feesThenTips: seq<nat>): nat {
    if feesThenTips == [] then 0
    else if |feesThenTips| == 1 then FourFifths(feesThenTips[0])
    else FourFifths(feesThenTips[0]) + FourFifths(feesThenTips[1])
  }

  /** The rest; the rests of a fee and a tip together are cut off at 128 bits. */
  function AuthorPart(feesThenTips: seq<nat>): nat {
    if feesThenTips == [] then 0
    else
      var fee := feesThenTips[0] - FourFifths(feesThenTips[0]);
      if |feesThenTips| == 1 then fee
      else
        var both := fee + feesThenTips[1] - FourFifths(feesThenTips[1]);
        if both <= MAX_BALANCE then both else MAX_BALANCE
  }

  /** What a payment is worth: its fee and its tip. */
  function Paid(feesThenTips: seq<nat>): nat {
    if feesThenTips == [] then 0
    else if |feesThenTips| == 1 then feesThenTips[0]
    else feesThenTips[0] + feesThenTips[1]
  }

  /** How many amounts of a payment are rationed. */
  function Rationed(feesThenTips: seq<nat>): nat {
    if |feesThenTips| < 2 then |feesThenTips| else 2
  }

  /** Rationing never loses anything, saturated or not. */
  lemma RationConserves(amount: nat)
    ensures var (part, rest) := Ration(amount, 80, 20); part + rest == amount
  {
  }

  /** Four fifths, rounded down, miss at most four fifths. */
  lemma FourFifthsRound(amount: nat)
    ensures 0 <= 80 * amount - 100 * (amount * 80 / 100) <= 80
  {
    var q, r := 4 * amount / 5, 4 * amount % 5;
    assert 4 * amount == 5 * q + r;
    assert amount * 80 == 100 * q + 20 * r;
    assert amount * 80 / 100 == q;
  }

  /** No multiple of 80 lies closer above the largest balance than this. */
  lemma SaturatedMisses(amount: nat, max: nat)
    requires max % 80 == 15 && max % 100 == 55 && amount * 80 > max
    ensures 80 * amount - 100 * (max / 100) > 80 && max / 100 <= amount
  {
    var q := max / 80;
    assert max == 80 * q + 15;
    assert amount > q;
    assert max == 100 * (max / 100) + 55;
  }

  /**
   The first part is the exact share rounded down, at most four fifths of a unit short, exactly when 80 times the
   amount still fits a balance. Past that the product saturates before it is divided.
   */
  lemma RationRounds(amount: nat)
    ensures 0 <= 80 * amount - 100 * Ration(amount, 80, 20).0
    ensures 80 * amount - 100 * Ration(amount, 80, 20).0 <= 80
       <==> amount * 80 <= 0xFFFF_FFFF_FFFF_FFFF_FFFF_FFFF_FFFF_FFFF
  {
    if amount * 80 <= MAX_BALANCE {
      FourFifthsRound(amount);
    } else {
      SaturatedMisses(amount, MAX_BALANCE);
    }
  }

  predicate FitsTogether(feesThenTips: seq<nat>) {
    Paid(feesThenTips) <= MAX_BALANCE
  }

  /** The fee and the tip each fit a balance eighty times over. */
  predicate FitEightyfold(feesThenTips: seq<nat>) {
    && (|feesThenTips| > 0 ==> feesThenTips[0] * 80 <= MAX_BALANCE)
    && (|feesThenTips| > 1 ==> feesThenTips[1] * 80 <= MAX_BALANCE)
  }

  lemma SharesConserve(feesThenTips: seq<nat>)
    requires FitsTogether(feesThenTips)
    ensures Shares(feesThenTips).0 + Shares(feesThenTips).1 == Paid(feesThenTips)
  {
    if feesThenTips != [] {
      RationConserves(feesThenTips[0]);
      if |feesThenTips| > 1 {
        RationConserves(feesThenTips[1]);
      }
    }
  }

  lemma RationIsFourFifths(amount: nat)
    ensures Ration(amount, 80, 20) == (FourFifths(amount), amount - FourFifths(amount))
  {
  }

  /** The shares of any payment, saturated or not. */
  lemma SharesAreTheParts(feesThenTips: seq<nat>)
    ensures Shares(feesThenTips) == (TreasuryPart(feesThenTips), AuthorPart(feesThenTips))
  {
  }

  lemma SharesRound(feesThenTips: seq<nat>)
    requires FitEightyfold(feesThenTips)
    ensures 0 <= 80 * Paid(feesThenTips) - 100 * Shares(feesThenTips).0 <= 80 * Rationed(feesThenTips)
  {
    if feesThenTips != [] {
      RationRounds(feesThenTips[0]);
      if |feesThenTips| > 1 {
        RationRounds(feesThenTips[1]);
      }
    }
  }

  // ----- Any number of payments -----

  datatype Payment = Payment(feesThenTips: seq<nat>, authorKnown: bool)

  function SettleAll(books: Books, payments: seq<Payment>): Books {
    if payments == [] then books
    else
      var last := payments[|payments| - 1];
      Settle(SettleAll(books, payments[..|payments| - 1]), last.feesThenTips, last.authorKnown)
  }

  function TotalPaid(payments: seq<Payment>): nat {
    if payments == [] then 0
    else TotalPaid(payments[..|payments| - 1]) + Paid(payments[|payments| - 1].feesThenTips)
  }

  function TotalRationed(payments: seq<Payment>): nat {
    if payments == [] then 0
    else TotalRationed(payments[..|payments| - 1]) + Rationed(payments[|payments| - 1].feesThenTips)
  }

  function TreasuryParts(payments: seq<Payment>): nat {
    if payments == [] then 0
    else TreasuryParts(payments[..|payments| - 1]) + TreasuryPart(payments[|payments| - 1].feesThenTips)
  }

  /** The authors' parts of the payments with a known author, or of those without one. */
  function AuthorParts(payments: seq<Payment>, known: bool): nat {
    if payments == [] then 0
    else
      var last := payments[|payments| - 1];
      AuthorParts(payments[..|payments| - 1], known)
        + if last.authorKnown == known then AuthorPart(last.feesThenTips) else 0
  }

  /**
   Where any payments go: four fifths of every fee and tip to the treasury, the rest to the author of the block if it
   has one and to nobody if not.
   */
  lemma {:induction false} WhoIsPaid(payments: seq<Payment>)
    ensures SettleAll(Books(0, 0, 0), payments)
         == Books(TreasuryParts(payments), AuthorParts(payments, true), AuthorParts(payments, false))
  {
    if payments != [] {
      WhoIsPaid(payments[..|payments| - 1]);
      SharesAreTheParts(payments[|payments| - 1].feesThenTips);
    }
  }

  /** Treasury, authors and burned amounts together are everything that was paid. */
  lemma {:induction false} PaymentsConserve(payments: seq<Payment>)
    requires forall i :: 0 <= i < |payments| ==> FitsTogether(payments[i].feesThenTips)
    ensures var b := SettleAll(Books(0, 0, 0), payments);
            b.treasury + b.author + b.burned == TotalPaid(payments)
    ensures (forall i :: 0 <= i < |payments| ==> payments[i].authorKnown) ==>
              SettleAll(Books(0, 0, 0), payments).burned == 0
  {
    if payments != [] {
      var init, last := payments[..|payments| - 1], payments[|payments| - 1];
      PaymentsConserve(init);
      SharesConserve(last.feesThenTips);
    }
  }

  /**
   The treasury holds at most 80% of what was paid, and is below it by at most four fifths of a unit for every amount
   rationed: less than two units a payment.
   */
  lemma {:induction false} TreasuryShare(payments: seq<Payment>)
    requires forall i :: 0 <= i < |payments| ==> FitEightyfold(payments[i].feesThenTips)
    ensures var missing := 80 * TotalPaid(payments) - 100 * SettleAll(Books(0, 0, 0), payments).treasury;
            && 0 <= missing <= 80 * TotalRationed(payments)
            && (payments != [] ==> missing < 100 * 2 * |payments|)
  {
    if payments != [] {
      var init, last := payments[..|payments| - 1], payments[|payments| - 1];
      TreasuryShare(init);
      SharesRound(last.feesThenTips);
      RationedPerPayment(payments);
    }
  }

  lemma {:induction false} RationedPerPayment(payments: seq<Payment>)
    ensures TotalRationed(payments) <= 2 * |payments|
  {
    if payments != [] {
      RationedPerPayment(payments[..|payments| - 1]);
    }
  }
}
