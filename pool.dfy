/**
 * The `provision` table: the pool of pre-built clusters. Each row names a
 * cluster, its plan, whether it has been handed out ("yes" or "no" in the
 * `claimed` column) and when it was made. A claim picks an unclaimed row of
 * the requested plan with the least make date and marks it claimed; a
 * deprovision deletes the row of the cluster by name.
 */
module Pool {
  import opened Wrappers

  datatype Row = Row(name: string, plan: string, claimed: string, makeDate: int)

  const Claimed := "yes"
  const Unclaimed := "no"

  /** The row may be handed out to a caller asking for `plan`. */
  predicate Eligible(row: Row, plan: string) {
    row.plan == plan && row.claimed == Unclaimed
  }

  /** The row-by-name statements are only meaningful because no two rows share a name. */
  ghost predicate NamesUnique(rows: seq<Row>) {
    forall i, j :: 0 <= i < j < |rows| ==> rows[i].name != rows[j].name
  }

  predicate HasName(rows: seq<Row>, name: string) {
    exists k :: 0 <= k < |rows| && rows[k].name == name
  }

  /** rows[i] is eligible for `plan`, and no eligible row was made before it. */
  ghost predicate OldestEligible(rows: seq<Row>, plan: string, i: int) {
    && 0 <= i < |rows|
    && Eligible(rows[i], plan)
    && forall k :: 0 <= k < |rows| && Eligible(rows[k], plan) ==> rows[i].makeDate <= rows[k].makeDate
  }

  /** The number of rows eligible for `plan`: how many more claims for it can succeed. */
  function CountEligible(rows: seq<Row>, plan: string): nat {
    if rows == [] then 0
    else CountEligible(rows[..|rows| - 1], plan) + (if Eligible(rows[|rows| - 1], plan) then 1 else 0)
  }

  /** The table after `update provision set claimed=value where name=name`. */
  function SetClaimed(rows: seq<Row>, name: string, value: string): (r: seq<Row>)
    ensures |r| == |rows|
    ensures forall k :: 0 <= k < |r| ==>
      && r[k].name == rows[k].name && r[k].plan == rows[k].plan && r[k].makeDate == rows[k].makeDate
      && r[k].claimed == (if rows[k].name == name then value else rows[k].claimed)
  {
    seq(|rows|, k requires 0 <= k < |rows| =>
      if rows[k].name == name then rows[k].(claimed := value) else rows[k])
  }

  /** The table after `delete from provision where name=name`: the other rows, in their order. */
  function DeleteName(rows: seq<Row>, name: string): (r: seq<Row>)
    ensures |r| <= |rows|
  {
    if rows == [] then []
    else
      var init, last := rows[..|rows| - 1], rows[|rows| - 1];
      DeleteName(init, name) + (if last.name == name then [] else [last])
  }

  /** A row survives the delete exactly when it was in the table under another name. */
  lemma {:induction false} DeleteNameMembers(rows: seq<Row>, name: string, row: Row)
    ensures row in DeleteName(rows, name) <==> row in rows && row.name != name
  {
    if rows != [] {
      var init, last := rows[..|rows| - 1], rows[|rows| - 1];
      DeleteNameMembers(init, name, row);
      assert rows == init + [last];
    }
  }

  // ---------------------------------------------------------------------------
  // Claiming
  // ---------------------------------------------------------------------------

  lemma {:induction false} CountEligibleAppend(a: seq<Row>, b: seq<Row>, plan: string)
    ensures CountEligible(a + b, plan) == CountEligible(a, plan) + CountEligible(b, plan)
    decreases |b|
  {
    if b == [] {
      assert a + b == a;
    } else {
      assert (a + b)[..|a + b| - 1] == a + b[..|b| - 1];
      CountEligibleAppend(a, b[..|b| - 1], plan);
    }
  }

  /** The pool of a plan is empty exactly when no row is eligible for it. */
  lemma {:induction false} CountEligibleZero(rows: seq<Row>, plan: string)
    ensures CountEligible(rows, plan) == 0 <==> forall k :: 0 <= k < |rows| ==> !Eligible(rows[k], plan)
  {
    if rows != [] {
      var init := rows[..|rows| - 1];
      CountEligibleZero(init, plan);
      assert forall k :: 0 <= k < |init| ==> init[k] == rows[k];
    }
  }

  lemma SetClaimedAbsent(rows: seq<Row>, name: string, value: string)
    requires !HasName(rows, name)
    ensures SetClaimed(rows, name, value) == rows
  {
  }

  lemma SetClaimedSplit(rows: seq<Row>, name: string, value: string, i: int)
    requires 0 <= i < |rows|
    ensures SetClaimed(rows, name, value)
         == SetClaimed(rows[..i], name, value) + SetClaimed([rows[i]], name, value) + SetClaimed(rows[i + 1..], name, value)
  {
  }

  /** With unique names, the row at `i` is the only one carrying its name. */
  lemma NameOnlyAt(rows: seq<Row>, i: int)
    requires NamesUnique(rows) && 0 <= i < |rows|
    ensures !HasName(rows[..i], rows[i].name) && !HasName(rows[i + 1..], rows[i].name)
  {
    var name, before, later := rows[i].name, rows[..i], rows[i + 1..];
    forall k | 0 <= k < |before| ensures before[k].name != name { assert before[k] == rows[k]; }
    forall k | 0 <= k < |later| ensures later[k].name != name { assert later[k] == rows[i + 1 + k]; }
  }

  lemma CountEligibleOne(row: Row, plan: string)
    ensures CountEligible([row], plan) == if Eligible(row, plan) then 1 else 0
  {
    assert [row][..0] == [];
  }

  /**
   * Marking an eligible row claimed changes that row, and only that row: it
   * now reads "yes" and is no longer eligible. The names stay unique.
   */
  lemma ClaimEffect(rows: seq<Row>, plan: string, i: int)
    requires NamesUnique(rows)
    requires 0 <= i < |rows| && Eligible(rows[i], plan)
    ensures var after := SetClaimed(rows, rows[i].name, Claimed);
      && |after| == |rows|
      && after[i] == rows[i].(claimed := Claimed) && !Eligible(after[i], plan)
      && (forall k :: 0 <= k < |rows| && k != i ==> after[k] == rows[k])
      && NamesUnique(after)
  {
  }

  /** Each successful claim shrinks the pool of its plan by exactly one row. */
  lemma ClaimCount(rows: seq<Row>, plan: string, i: int)
    requires NamesUnique(rows)
    requires 0 <= i < |rows| && Eligible(rows[i], plan)
    ensures CountEligible(SetClaimed(rows, rows[i].name, Claimed), plan) == CountEligible(rows, plan) - 1
  {
    var name := rows[i].name;
    var before, here, later := rows[..i], [rows[i]], rows[i + 1..];
    NameOnlyAt(rows, i);
    SetClaimedSplit(rows, name, Claimed, i);
    SetClaimedAbsent(before, name, Claimed);
    SetClaimedAbsent(later, name, Claimed);
    var here' := SetClaimed(here, name, Claimed);
    assert here' == [rows[i].(claimed := Claimed)];
    assert rows == before + here + later;
    CountEligibleAppend(before + here, later, plan);
    CountEligibleAppend(before, here, plan);
    CountEligibleAppend(before + here', later, plan);
    CountEligibleAppend(before, here', plan);
    CountEligibleOne(rows[i], plan);
    CountEligibleOne(here'[0], plan);
  }

  // ---------------------------------------------------------------------------
  // Deleting
  // ---------------------------------------------------------------------------

  lemma {:induction false} DeleteNameAppend(a: seq<Row>, b: seq<Row>, name: string)
    ensures DeleteName(a + b, name) == DeleteName(a, name) + DeleteName(b, name)
    decreases |b|
  {
    if b == [] {
      assert a + b == a;
    } else {
      assert (a + b)[..|a + b| - 1] == a + b[..|b| - 1];
      DeleteNameAppend(a, b[..|b| - 1], name);
    }
  }

  lemma {:induction false} DeleteNameAbsent(rows: seq<Row>, name: string)
    requires !HasName(rows, name)
    ensures DeleteName(rows, name) == rows
  {
    if rows != [] {
      var init := rows[..|rows| - 1];
      assert !HasName(init, name) by {
        forall k | 0 <= k < |init| ensures init[k].name != name { assert init[k] == rows[k]; }
      }
      DeleteNameAbsent(init, name);
      assert rows == init + [rows[|rows| - 1]];
    }
  }

  /**
   * Deleting by name removes exactly the row with that name, keeping every
   * other row and their order; a name that is not in the table changes nothing.
   */
  lemma DeleteNameEffect(rows: seq<Row>, name: string)
    requires NamesUnique(rows)
    ensures !HasName(rows, name) ==> DeleteName(rows, name) == rows
    ensures forall i :: 0 <= i < |rows| && rows[i].name == name ==> DeleteName(rows, name) == rows[..i] + rows[i + 1..]
    ensures NamesUnique(DeleteName(rows, name))
  {
    if !HasName(rows, name) {
      DeleteNameAbsent(rows, name);
    } else {
      var i :| 0 <= i < |rows| && rows[i].name == name;
      DeleteNameAt(rows, i);
      RemoveOneUnique(rows, i);
      forall j | 0 <= j < |rows| && rows[j].name == name ensures DeleteName(rows, name) == rows[..j] + rows[j + 1..] {
        assert j == i;
      }
    }
  }

  lemma DeleteNameAt(rows: seq<Row>, i: int)
    requires NamesUnique(rows) && 0 <= i < |rows|
    ensures DeleteName(rows, rows[i].name) == rows[..i] + rows[i + 1..]
  {
    NameOnlyAt(rows, i);
    assert rows == rows[..i] + [rows[i]] + rows[i + 1..];
    DeleteNameSplice(rows[..i], rows[i], rows[i + 1..]);
  }

  lemma DeleteNameSplice(before: seq<Row>, row: Row, later: seq<Row>)
    requires !HasName(before, row.name) && !HasName(later, row.name)
    ensures DeleteName(before + [row] + later, row.name) == before + later
  {
    var name, mid := row.name, before + [row];
    DeleteNameAbsent(before, name);
    DeleteNameAbsent(later, name);
    DeleteNameAppend(before, [row], name);
    DeleteNameOne(row, name);
    assert DeleteName(mid, name) == before;
    DeleteNameAppend(mid, later, name);
  }

  lemma DeleteNameOne(row: Row, name: string)
    ensures DeleteName([row], name) == if row.name == name then [] else [row]
  {
    assert [row][..0] == [];
  }

  lemma RemoveOneUnique(rows: seq<Row>, i: int)
    requires NamesUnique(rows) && 0 <= i < |rows|
    ensures NamesUnique(rows[..i] + rows[i + 1..])
  {
    var r := rows[..i] + rows[i + 1..];
    forall p, q | 0 <= p < q < |r| ensures r[p].name != r[q].name {
      var p', q' := if p < i then p else p + 1, if q < i then q else q + 1;
      assert r[p] == rows[p'] && r[q] == rows[q'];
    }
  }

  // ---------------------------------------------------------------------------
  // The table
  // ---------------------------------------------------------------------------

  class ProvisionTable {
    var rows: seq<Row>

    ghost predicate Valid()
      reads this
    {
      NamesUnique(rows)
    }

    constructor (initial: seq<Row>)
      requires NamesUnique(initial)
      ensures Valid() && rows == initial
    {
      rows := initial;
    }

    /**
     * `select name from provision where plan=P and claimed='no' and
     * make_date=(select min(make_date) ...)`, read through QueryRow: the name
     * of an eligible row of least make date, or nothing when no row is
     * eligible. Among rows that tie on make date, any one may come back.
     */
    method SelectOldest(plan: string) returns (name: Option<string>)
      ensures name.None? <==> forall k :: 0 <= k < |rows| ==> !Eligible(rows[k], plan)
      ensures name.Some? ==> exists i :: OldestEligible(rows, plan, i) && rows[i].name == name.value
    {
      var best: Option<nat> := None;
      var i := 0;
      while i < |rows|
        invariant 0 <= i <= |rows|
        invariant best.None? ==> forall k :: 0 <= k < i ==> !Eligible(rows[k], plan)
        invariant best.Some? ==> best.value < i && Eligible(rows[best.value], plan)
        invariant best.Some? ==>
          forall k :: 0 <= k < i && Eligible(rows[k], plan) ==> rows[best.value].makeDate <= rows[k].makeDate
      {
        if Eligible(rows[i], plan) && (best.None? || rows[i].makeDate < rows[best.value].makeDate) {
          best := Some(i);
        }
        i := i + 1;
      }
      match best
      case None =>
        name := None;
      case Some(b) =>
        assert OldestEligible(rows, plan, b);
        name := Some(rows[b].name);
    }

    /** `update provision set claimed=$1 where name=$2` */
    method Update(name: string, value: string)
      requires Valid()
      modifies this
      ensures Valid()
      ensures rows == SetClaimed(old(rows), name, value)
    {
      ghost var before := rows;
      var i := 0;
      while i < |rows|
        invariant 0 <= i <= |rows| == |before|
        invariant forall k :: 0 <= k < i ==> rows[k] == SetClaimed(before, name, value)[k]
        invariant forall k :: i <= k < |rows| ==> rows[k] == before[k]
      {
        if rows[i].name == name {
          rows := rows[i := rows[i].(claimed := value)];
        }
        i := i + 1;
      }
    }

    /** `delete from provision where name=$1`, answering how many rows it removed. */
    method Delete(name: string) returns (affected: nat)
      requires Valid()
      modifies this
      ensures Valid()
      ensures rows == DeleteName(old(rows), name)
      ensures affected == |old(rows)| - |rows|
    {
      var kept: seq<Row> := [];
      var i := 0;
      while i < |rows|
        invariant 0 <= i <= |rows|
        invariant kept == DeleteName(rows[..i], name)
      {
        assert rows[..i + 1][..i] == rows[..i];
        if rows[i].name != name {
          kept := kept + [rows[i]];
        }
        i := i + 1;
      }
      assert rows[..i] == rows;
      DeleteNameEffect(rows, name);
      affected := |rows| - |kept|;
      rows := kept;
    }

    /**
     * The claim of a provisioning request: select the oldest eligible row of
     * `plan`; if there is none, fail and leave the table alone; otherwise mark
     * that row claimed, changing nothing else, so that the plan's pool shrinks
     * by one.
     */
    method Claim(plan: string) returns (name: Option<string>)
      requires Valid()
      modifies this
      ensures Valid()
      ensures name.None? ==> rows == old(rows) && forall k :: 0 <= k < |rows| ==> !Eligible(rows[k], plan)
      ensures name.Some? ==>
        && (exists i :: OldestEligible(old(rows), plan, i) && old(rows)[i].name == name.value)
        && rows == SetClaimed(old(rows), name.value, Claimed)
        && CountEligible(rows, plan) == CountEligible(old(rows), plan) - 1
    {
      name := SelectOldest(plan);
      if name.Some? {
        ghost var i :| OldestEligible(rows, plan, i) && rows[i].name == name.value;
        ClaimEffect(rows, plan, i);
        ClaimCount(rows, plan, i);
        Update(name.value, Claimed);
      }
    }
  }
}
