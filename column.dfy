/**
 * Locating the e-mail column in the header row: an exact (case-insensitive)
 * heading "email" or "e-mail" wins; failing that, the first heading that
 * contains one of those words; failing that, an error.
 */
module Column {
  import opened Wrappers
  import opened Strings

  const NoEmailColumn := "No email column found"

  /** The heading, lower-cased, is exactly "email" or "e-mail". */
  predicate IsExact(heading: string)
  {
    var h := ToLower(heading);
    h == "email" || h == "e-mail"
  }

  /** The heading, lower-cased, contains "email" or "e-mail". */
  predicate IsClose(heading: string)
  {
    var h := ToLower(heading);
    Contains(h, "email") || Contains(h, "e-mail")
  }

  /** An exact heading is also a close one, so exact matching only refines the choice. */
  lemma ExactIsClose(heading: string)
    ensures IsExact(heading) ==> IsClose(heading)
  {
    var h := ToLower(heading);
    if h == "email" {
      assert OccursAt(h, "email", 0);
    } else if h == "e-mail" {
      assert OccursAt(h, "e-mail", 0);
    }
  }

  /** The smallest index whose heading satisfies `p`, if any. */
  function FirstIndex(headings: seq<string>, p: string -> bool): (r: Option<nat>)
    ensures r.Some? ==> r.value < |headings| && p(headings[r.value])
    ensures r.Some? ==> forall k | 0 <= k < r.value :: !p(headings[k])
    ensures r.None? ==> forall k | 0 <= k < |headings| :: !p(headings[k])
  {
    if |headings| == 0 then None
    else if p(headings[0]) then Some(0)
    else match FirstIndex(headings[1..], p)
      case None => None
      case Some(i) => Some(i + 1)
  }

  /**
   * The column the header selects: the first exact heading if there is one,
   * otherwise the first close heading, otherwise none.
   */
  function EmailColumn(headings: seq<string>): (r: Option<nat>)
    ensures r.Some? ==> r.value < |headings|
    ensures (exists i | 0 <= i < |headings| :: IsExact(headings[i])) ==>
              r.Some? && IsExact(headings[r.value]) &&
              forall k | 0 <= k < r.value :: !IsExact(headings[k])
    ensures (forall i | 0 <= i < |headings| :: !IsExact(headings[i])) && r.Some? ==>
              IsClose(headings[r.value]) &&
              forall k | 0 <= k < r.value :: !IsClose(headings[k])
    ensures r.None? <==> forall i | 0 <= i < |headings| :: !IsClose(headings[i])
  {
    match FirstIndex(headings, IsExact)
    case Some(i) =>
      ExactIsClose(headings[i]);
      Some(i)
    case None => FirstIndex(headings, IsClose)
  }

  /**
   * The single pass over the header: an exact heading is returned at once,
   * the first close heading is remembered and returned after the scan.
   */
  method FindEmailColumn(headings: seq<string>) returns (col: nat, err: Option<string>)
    ensures err.None? <==> EmailColumn(headings).Some?
    ensures err.None? ==> col == EmailColumn(headings).value
    ensures err.Some? ==> col == 0 && err.value == NoEmailColumn
  {
    var closeMatch: Option<nat> := None;
    for i := 0 to |headings|
      invariant forall k | 0 <= k < i :: !IsExact(headings[k])
      invariant closeMatch.None? ==> forall k | 0 <= k < i :: !IsClose(headings[k])
      invariant closeMatch.Some? ==>
                  closeMatch.value < i && IsClose(headings[closeMatch.value]) &&
                  forall k | 0 <= k < closeMatch.value :: !IsClose(headings[k])
    {
      var h := ToLower(headings[i]);
      if h == "email" || h == "e-mail" {
        // Return an exact match immediately.
        return i, None;
      }
      if closeMatch.None? {
        if Contains(h, "email") || Contains(h, "e-mail") {
          closeMatch := Some(i);
        }
      }
    }
    if closeMatch.Some? {
      return closeMatch.value, None;
    }
    return 0, Some(NoEmailColumn);
  }

  /** Matching a heading ignores the case of its letters. */
  lemma MatchIgnoresCase(heading: string)
    ensures IsExact(ToLower(heading)) == IsExact(heading)
    ensures IsClose(ToLower(heading)) == IsClose(heading)
  {
    assert ToLower(ToLower(heading)) == ToLower(heading);
  }

  /** A string without upper-case ASCII letters is its own lower-case form. */
  lemma LowerIsIdentity(s: string)
    requires forall i | 0 <= i < |s| :: !('A' <= s[i] <= 'Z')
    ensures ToLower(s) == s
  {
  }

  /** The short headings of the repository's tests: "email" is exact, the rest are not close. */
  lemma ShortHeadings()
    ensures IsExact("email")
    ensures !IsClose("one") && !IsClose("two") && !IsClose("three") && !IsClose("four")
  {
    LowerIsIdentity("email"); LowerIsIdentity("one"); LowerIsIdentity("two");
    LowerIsIdentity("three"); LowerIsIdentity("four");
    assert !IsClose("three") by {
      assert "three"[0..5][0] == 't';
    }
  }

  /** The long headings of the repository's tests contain "email" without being exact. */
  lemma LongHeadings()
    ensures IsClose("the_email_address") && !IsExact("the_email_address")
    ensures IsClose("the_email") && !IsExact("the_email")
    ensures IsClose("some_email_address") && !IsExact("some_email_address")
  {
    LowerIsIdentity("the_email_address"); LowerIsIdentity("the_email");
    LowerIsIdentity("some_email_address");
    assert OccursAt("the_email_address", "email", 4);
    assert OccursAt("the_email", "email", 4);
    assert OccursAt("some_email_address", "email", 5);
  }

  /** The header table of the repository's tests, evaluated by the specification. */
  lemma HeadingTable()
    ensures EmailColumn(["one", "email", "three"]) == Some(1)
    ensures EmailColumn(["one", "the_email_address", "three"]) == Some(1)
    ensures EmailColumn(["one", "email", "the_email", "four"]) == Some(1)
    ensures EmailColumn(["one", "some_email_address", "email", "four"]) == Some(2)
    ensures EmailColumn(["one", "two", "three", "four"]) == None
  {
    ShortHeadings();
    LongHeadings();
    ExactIsClose("one");
    ExactIsClose("two");
    ExactIsClose("three");
    ExactIsClose("four");
  }
}
