/** Totals of the payments log (src/repositories/payment-repository.ts). Amounts are real numbers:
    floating-point rounding is not modelled. */
module Payments {
  import opened Text
  import opened Paging
  import opened Chunks

  datatype Payment = Payment(payer: string, payee: string, status: string, kind: string, amount: Option<real>)

  const PAGE_SIZE := 100

  const WEI_SCALE_THRESHOLD := 1000000000000.0
  const WEI_PER_ETH := 1000000000000000000.0

  /** toEthUnits: only large amounts of milestone releases are in wei. */
  function ToEthUnits(amount: real, kind: string): real {
    if kind == "milestone_release" && amount > WEI_SCALE_THRESHOLD then amount / WEI_PER_ETH else amount
  }

  /** What a payment moves between its parties; an escrow deposit moves nothing to the payee yet. */
  function Moved(p: Payment): real {
    if p.status == "completed" && p.kind != "escrow_deposit" then
      ToEthUnits(if p.amount.Some? then p.amount.value else 0.0, p.kind)
    else 0.0
  }

  function PaidTo(user: string): Payment -> bool {
    (p: Payment) => p.payee == user && p.status == "completed"
  }

  function PaidBy(user: string): Payment -> bool {
    (p: Payment) => p.payer == user && p.status == "completed"
  }

  function Sum(rows: seq<Row<Payment>>): real {
    if rows == [] then 0.0 else Moved(rows[0].data) + Sum(rows[1..])
  }

  function Earned(rows: seq<Row<Payment>>, user: string): real {
    Sum(Select(rows, PaidTo(user)))
  }

  function Spent(rows: seq<Row<Payment>>, user: string): real {
    Sum(Select(rows, PaidBy(user)))
  }

  lemma {:induction false} SumLast(rows: seq<Row<Payment>>, last: Row<Payment>)
    ensures Sum(rows + [last]) == Sum(rows) + Moved(last.data)
  {
    if rows == [] {
      assert [last][1..] == [];
    } else {
      SumLast(rows[1..], last);
      assert (rows + [last])[1..] == rows[1..] + [last];
      hide Moved;
    }
  }

  /** The filter and the running sum over the documents of a query that asked for completed ones. */
  method AddUp(documents: seq<Row<Payment>>) returns (sum: real)
    requires forall i | 0 <= i < |documents| :: documents[i].data.status == "completed"
    ensures sum == Sum(documents)
  {
    sum := 0.0;
    for i := 0 to |documents|
      invariant sum == Sum(documents[..i])
    {
      var p := documents[i].data;
      if p.kind != "escrow_deposit" {
        sum := sum + ToEthUnits(if p.amount.Some? then p.amount.value else 0.0, p.kind);
      }
      SumLast(documents[..i], documents[i]);
      assert documents[..i + 1] == documents[..i] + [documents[i]];
    }
    assert documents[..|documents|] == documents;
  }

  /** Null, not zero, when a query fails. */
  method GetTotalEarnings(rows: seq<Row<Payment>>, userId: string, works: nat -> bool) returns (r: Option<real>)
    requires ValidRows(rows)
    ensures r == if AllWork(|Select(rows, PaidTo(userId))|, PAGE_SIZE, works) then Some(Earned(rows, userId)) else None
  {
    var payments := FetchAll(rows, PaidTo(userId), PAGE_SIZE, works);
    if payments == None {
      return None;
    }
    forall i | 0 <= i < |payments.value| ensures payments.value[i].data.status == "completed" {
      SelectMember(rows, PaidTo(userId), payments.value[i]);
    }
    var sum := AddUp(payments.value);
    r := Some(sum);
  }

  method GetTotalSpent(rows: seq<Row<Payment>>, userId: string, works: nat -> bool) returns (r: Option<real>)
    requires ValidRows(rows)
    ensures r == if AllWork(|Select(rows, PaidBy(userId))|, PAGE_SIZE, works) then Some(Spent(rows, userId)) else None
  {
    var payments := FetchAll(rows, PaidBy(userId), PAGE_SIZE, works);
    if payments == None {
      return None;
    }
    forall i | 0 <= i < |payments.value| ensures payments.value[i].data.status == "completed" {
      SelectMember(rows, PaidBy(userId), payments.value[i]);
    }
    var sum := AddUp(payments.value);
    r := Some(sum);
  }

  // --- what one payment adds ---------------------------------------------------------------------

  lemma {:induction false} SumAppend(a: seq<Row<Payment>>, b: seq<Row<Payment>>)
    ensures Sum(a + b) == Sum(a) + Sum(b)
  {
    if a == [] {
      assert a + b == b;
    } else {
      SumAppend(a[1..], b);
      assert (a + b)[1..] == a[1..] + b;
      hide Moved;
    }
  }

  lemma SumOne(row: Row<Payment>)
    ensures Sum([row]) == Moved(row.data)
  {
    assert [row][1..] == [] && Sum([]) == 0.0;
    hide Moved;
  }

  lemma AddsTo(before: seq<Row<Payment>>, row: Row<Payment>, after: seq<Row<Payment>>, keep: Payment -> bool)
    ensures Sum(Select(before + [row] + after, keep))
            == Sum(Select(before + after, keep)) + if keep(row.data) then Moved(row.data) else 0.0
  {
    SelectAppend(before + [row], after, keep);
    SelectAppend(before, [row], keep);
    SelectAppend(before, after, keep);
    SelectStep([row], keep);
    assert [row][1..] == [] && Select([], keep) == [];
    SumOne(row);
    hide *;
    var (a, b, one) := (Select(before, keep), Select(after, keep), if keep(row.data) then [row] + [] else []);
    assert one == if keep(row.data) then [row] else [];
    SumAppend(a + one, b);
    SumAppend(a, one);
    SumAppend(a, b);
    assert keep(row.data) || a + one == a;
  }

  /** A payment anywhere in the list adds its amount to what its payee has earned and its payer has spent,
      and to nobody else's totals: nothing unless it is completed and not a deposit into escrow; an
      amount above a million million that a milestone released is in wei, and a missing one is zero. */
  lemma PaymentAdds(before: seq<Row<Payment>>, row: Row<Payment>, after: seq<Row<Payment>>, user: string)
    ensures var p := row.data;
            var amount := if p.amount.Some? then p.amount.value else 0.0;
            var eth := if p.status != "completed" || p.kind == "escrow_deposit" then 0.0
                       else if p.kind == "milestone_release" && amount > 1000000000000.0
                       then amount / 1000000000000000000.0 else amount;
            && Earned(before + [row] + after, user)
               == Earned(before + after, user) + (if p.payee == user then eth else 0.0)
            && Spent(before + [row] + after, user)
               == Spent(before + after, user) + (if p.payer == user then eth else 0.0)
  {
    AddsTo(before, row, after, PaidTo(user));
    AddsTo(before, row, after, PaidBy(user));
    hide Sum, Select;
  }

  // --- conservation ---------------------------------------------------------------------------

  function AllEarned(rows: seq<Row<Payment>>, users: seq<string>): real {
    if users == [] then 0.0 else Earned(rows, users[0]) + AllEarned(rows, users[1..])
  }

  function AllSpent(rows: seq<Row<Payment>>, users: seq<string>): real {
    if users == [] then 0.0 else Spent(rows, users[0]) + AllSpent(rows, users[1..])
  }

  /** One more payment adds to the earnings of its payee and of nobody else. */
  lemma EarnedStep(rows: seq<Row<Payment>>, user: string)
    requires rows != []
    ensures Earned(rows, user)
            == Earned(rows[1..], user) + if rows[0].data.payee == user then Moved(rows[0].data) else 0.0
  {
    SelectStep(rows, PaidTo(user));
    var rest := Select(rows[1..], PaidTo(user));
    assert ([rows[0]] + rest)[1..] == rest;
    hide Select, ToEthUnits;
  }

  lemma SpentStep(rows: seq<Row<Payment>>, user: string)
    requires rows != []
    ensures Spent(rows, user)
            == Spent(rows[1..], user) + if rows[0].data.payer == user then Moved(rows[0].data) else 0.0
  {
    SelectStep(rows, PaidBy(user));
    var rest := Select(rows[1..], PaidBy(user));
    assert ([rows[0]] + rest)[1..] == rest;
    hide Select, ToEthUnits;
  }

  lemma {:induction false} AllEarnedStep(rows: seq<Row<Payment>>, users: seq<string>)
    requires rows != [] && Distinct(users)
    ensures AllEarned(rows, users)
            == AllEarned(rows[1..], users) + if rows[0].data.payee in users then Moved(rows[0].data) else 0.0
    decreases |users|
  {
    if users != [] {
      EarnedStep(rows, users[0]);
      AllEarnedStep(rows, users[1..]);
      assert users == [users[0]] + users[1..];
      hide Moved, Earned;
    }
  }

  lemma {:induction false} AllSpentStep(rows: seq<Row<Payment>>, users: seq<string>)
    requires rows != [] && Distinct(users)
    ensures AllSpent(rows, users)
            == AllSpent(rows[1..], users) + if rows[0].data.payer in users then Moved(rows[0].data) else 0.0
    decreases |users|
  {
    if users != [] {
      SpentStep(rows, users[0]);
      AllSpentStep(rows, users[1..]);
      assert users == [users[0]] + users[1..];
      hide Moved, Spent;
    }
  }

  lemma {:induction false} NothingYet(users: seq<string>)
    ensures AllEarned([], users) == 0.0 && AllSpent([], users) == 0.0
  {
    if users != [] {
      NothingYet(users[1..]);
    }
  }

  /** Over any set of users that includes every party of a payment that moved something, what is
      earned equals what is spent, and both equal what was moved. */
  lemma {:induction false} Conservation(rows: seq<Row<Payment>>, users: seq<string>)
    requires Distinct(users)
    requires forall i | 0 <= i < |rows| && Moved(rows[i].data) != 0.0 ::
               rows[i].data.payer in users && rows[i].data.payee in users
    ensures AllEarned(rows, users) == Sum(rows) && AllSpent(rows, users) == Sum(rows)
  {
    if rows == [] {
      NothingYet(users);
    } else {
      AllEarnedStep(rows, users);
      AllSpentStep(rows, users);
      forall i | 0 <= i < |rows[1..]| && Moved(rows[1..][i].data) != 0.0
        ensures rows[1..][i].data.payer in users && rows[1..][i].data.payee in users
      {
        assert rows[1..][i] == rows[i + 1];
      }
      Conservation(rows[1..], users);
      hide Moved, AllEarned, AllSpent;
    }
  }
}
