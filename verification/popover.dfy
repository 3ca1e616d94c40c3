/**
 * The popover's visibility (`open` and `close` in timepicker.js): the
 * selector panel is shown while its class list holds `"show"`. A class list
 * (a DOMTokenList) is an ordered list of distinct tokens; `add` appends a
 * missing token at the end and `remove` deletes a token wherever it is.
 */
module Popover {

  /** The class that makes the selector panel visible. */
  const ShowClass := "show"

  /** No token occurs twice. */
  predicate NoDuplicates(cl: seq<string>) {
    forall i, j :: 0 <= i < j < |cl| ==> cl[i] != cl[j]
  }

  /** The panel is visible. */
  predicate IsOpen(cl: seq<string>) {
    ShowClass in cl
  }

  /**
   * `classList.add("show")`: the panel becomes visible, the classes already
   * present keep their order, and no other class appears or disappears.
   */
  function Open(cl: seq<string>): (r: seq<string>)
    ensures IsOpen(r)
    ensures forall x :: x != ShowClass ==> (x in r <==> x in cl)
    ensures |cl| <= |r| && r[..|cl|] == cl
    ensures NoDuplicates(cl) ==> NoDuplicates(r)
  {
    if ShowClass in cl then cl else cl + [ShowClass]
  }

  /**
   * `classList.remove("show")`: the panel becomes hidden, the other classes
   * keep their order, and no other class appears or disappears.
   */
  function Close(cl: seq<string>): (r: seq<string>)
    ensures !IsOpen(r)
    ensures forall x :: x != ShowClass ==> (x in r <==> x in cl)
    ensures |r| <= |cl|
    ensures !IsOpen(cl) ==> r == cl
    ensures NoDuplicates(cl) ==> NoDuplicates(r)
  {
    if |cl| == 0 then []
    else if cl[0] == ShowClass then Close(cl[1..])
    else
      var rest := Close(cl[1..]);
      assert cl == [cl[0]] + cl[1..];
      assert NoDuplicates(cl) ==> cl[0] !in cl[1..];
      [cl[0]] + rest
  }

  /** Opening an open panel changes nothing. */
  lemma OpenIdempotent(cl: seq<string>)
    ensures Open(Open(cl)) == Open(cl)
  {
  }

  /** Closing a closed panel changes nothing. */
  lemma CloseIdempotent(cl: seq<string>)
    ensures Close(Close(cl)) == Close(cl)
  {
  }

  /** Closing undoes opening: the classes other than `"show"` are back as they were. */
  lemma {:induction false} CloseAfterOpen(cl: seq<string>)
    ensures Close(Open(cl)) == Close(cl)
  {
    if ShowClass !in cl {
      CloseAppendShow(cl);
    }
  }

  /** A trailing `"show"` is dropped by `Close`. */
  lemma {:induction false} CloseAppendShow(cl: seq<string>)
    ensures Close(cl + [ShowClass]) == Close(cl)
  {
    if |cl| > 0 {
      assert (cl + [ShowClass])[1..] == cl[1..] + [ShowClass];
      CloseAppendShow(cl[1..]);
    }
  }

  /** Opening after closing puts `"show"` back at the end of the list. */
  lemma OpenAfterClose(cl: seq<string>)
    ensures Open(Close(cl)) == Close(cl) + [ShowClass]
  {
  }
}
