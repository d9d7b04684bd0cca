/** The `whitelist` table: the phone numbers allowed to talk to the bot. The
    phone number is the primary key, so the table is a set; it is kept here as a
    sequence without duplicates. The listing query has no ORDER BY, so its
    order is not fixed by the database; the model fixes it as insertion
    order. */
module Whitelist {
  import opened Common

  /** `INSERT OR IGNORE`: append the number unless it is already there. */
  function Added(wl: seq<string>, number: string): (r: seq<string>)
    ensures forall x :: x in r <==> x in wl || x == number
    ensures NoDuplicates(wl) ==> NoDuplicates(r)
    ensures number in wl ==> r == wl
  {
    if number in wl then wl else wl + [number]
  }

  /** `DELETE ... WHERE phone_number = ?`: drop the number, keep the rest in order. */
  function Removed(wl: seq<string>, number: string): (r: seq<string>)
    ensures forall x :: x in r <==> x in wl && x != number
    ensures NoDuplicates(wl) ==> NoDuplicates(r)
    ensures number !in wl ==> r == wl
  {
    if wl == [] then []
    else
      var rest := Removed(wl[1..], number);
      assert NoDuplicates(wl) ==> wl[0] !in wl[1..] by {
        if NoDuplicates(wl) {
          forall k | 0 <= k < |wl[1..]| ensures wl[1..][k] != wl[0] {
            assert wl[k + 1] != wl[0];
          }
        }
      }
      assert NoDuplicates(wl) ==> NoDuplicates(wl[1..]) by {
        if NoDuplicates(wl) {
          forall i, j | 0 <= i < j < |wl[1..]| ensures wl[1..][i] != wl[1..][j] {
            assert wl[i + 1] != wl[j + 1];
          }
        }
      }
      assert number !in wl ==> wl == [wl[0]] + wl[1..];
      if wl[0] == number then rest else [wl[0]] + rest
  }

  /** Adding a number that is already listed twice yields one entry: the second
      add changes nothing. */
  lemma AddIdempotent(wl: seq<string>, number: string)
    ensures Added(Added(wl, number), number) == Added(wl, number)
  {
  }

  /** Removing a number just added to a list that did not hold it restores the list. */
  lemma {:induction false} RemoveUndoesAdd(wl: seq<string>, number: string)
    requires number !in wl
    ensures Removed(Added(wl, number), number) == wl
  {
    if wl == [] {
      assert Added(wl, number) == [number];
    } else {
      RemoveUndoesAdd(wl[1..], number);
      assert Added(wl, number)[1..] == Added(wl[1..], number);
    }
  }

  /** The last operation on a number decides its membership, whatever operation
      on another number came just before: listed right after an add, not
      listed right after a remove. */
  lemma MembershipFollowsLastOperation(wl: seq<string>, number: string, other: string)
    ensures number in Added(Removed(wl, other), number)
    ensures number !in Removed(Added(wl, other), number)
  {
  }
}
