/**
 * How a referral's specificity (none, a sub-specialty label, or one or more
 * physician names after the marker "ФИО: ") becomes the predicate used to
 * pick calendar cells. The XPath text around each part is not modelled; the
 * one clause the source builds by string surgery, the "or" of several
 * names, is modelled character for character.
 */
module Locator {
  import opened Wrappers
  import opened Text

  /** The search `get_locator_for_search` asks the portal for. */
  datatype SearchPredicate =
    | AnyFreeCell
    | OnePhysician(name: string)
    | SeveralPhysicians(names: seq<string>, clause: string)
    | SpecialtyLabel(original: string, upper: string)

  /** The marker that introduces physician names in a specificity. */
  const FioMarker: string := "ФИО: "

  /** `correct_specific`: a missing or empty specificity means "no specificity". */
  function CorrectSpecific(specific: Option<string>): (r: Option<string>)
    ensures r.None? <==> specific.None? || specific.value == ""
    ensures r.Some? ==> r == specific
  {
    if specific.None? || specific.value == "" then None else specific
  }

  /** Correcting an already corrected specificity changes nothing. */
  lemma CorrectSpecificIdempotent(specific: Option<string>)
    ensures CorrectSpecific(CorrectSpecific(specific)) == CorrectSpecific(specific)
  {
  }

  /** What `check_specific_fio` returns: the text itself or a list of names. */
  datatype FioNames = OneName(name: string) | NameList(names: seq<string>)

  /**
   * `check_specific_fio`: with a comma anywhere, the names split at ", ";
   * otherwise the text unchanged. Joining the list back gives the text.
   */
  function CheckSpecificFio(specific: string): (r: FioNames)
    ensures r.NameList? <==> Contains(specific, ",")
    ensures r.OneName? ==> r.name == specific
    ensures r.NameList? ==> |r.names| >= 1 && Join(r.names, ", ") == specific
  {
    SplitJoin(specific, ", ");
    if Contains(specific, ",") then NameList(Split(specific, ", ")) else OneName(specific)
  }

  /** `contains(text(), "<name>")`. */
  function ContainsClause(name: string): string
  {
    "contains(text(), \"" + name + "\")"
  }

  /** The clause for each name, in order. */
  function Clauses(names: seq<string>): (r: seq<string>)
    ensures |r| == |names|
    ensures forall i :: 0 <= i < |names| ==> r[i] == ContainsClause(names[i])
  {
    if names == [] then [] else [ContainsClause(names[0])] + Clauses(names[1..])
  }

  /** `''.join([f'contains(text(), "{x}") or ' for x in names])`. */
  function ClausesEachFollowedByOr(names: seq<string>): string
  {
    if names == [] then "" else ContainsClause(names[0]) + " or " + ClausesEachFollowedByOr(names[1..])
  }

  /** Python's `s[:-4]`. */
  function DropLast4(s: string): (r: string)
    ensures |s| >= 4 ==> s == r + s[|s| - 4..]
    ensures |s| < 4 ==> r == ""
  {
    if |s| >= 4 then s[..|s| - 4] else ""
  }

  /** Each clause followed by " or " is the " or "-join of the clauses plus one trailing " or ". */
  lemma {:induction false} ClausesEachFollowedByOrIsJoin(names: seq<string>)
    requires |names| > 0
    ensures ClausesEachFollowedByOr(names) == Join(Clauses(names), " or ") + " or "
  {
    if |names| > 1 {
      ClausesEachFollowedByOrIsJoin(names[1..]);
      assert Clauses(names)[1..] == Clauses(names[1..]);
    }
  }

  /**
   * The several-names clause: the comprehension of the source with its last
   * four characters cut off. For any non-empty list of names the cut removes
   * exactly the trailing " or ", leaving the clauses joined by " or ".
   */
  function SeveralNamesClause(names: seq<string>): (clause: string)
    ensures |names| > 0 ==> clause == Join(Clauses(names), " or ")
  {
    var all := ClausesEachFollowedByOr(names);
    if |names| > 0 then
      ClausesEachFollowedByOrIsJoin(names);
      assert all[..|all| - 4] == Join(Clauses(names), " or ");
      DropLast4(all)
    else DropLast4(all)
  }

  /**
   * `get_locator_for_search`. No specificity searches any free cell. A
   * specificity with the marker keeps the text between the first marker and
   * the next (or the end); without a comma that is one name, with commas it
   * is split at "," (so later names keep their leading space) and the names
   * are or-ed. Any other specificity is a label matched as written or upper-cased.
   */
  function GetLocatorForSearch(specific: Option<string>): (r: SearchPredicate)
    ensures r.AnyFreeCell? <==> specific.None?
  {
    match specific
    case None => AnyFreeCell
    case Some(text) =>
      if Contains(text, FioMarker) then
        var names := Split(text, FioMarker)[1];
        if !Contains(names, ",") then OnePhysician(names)
        else
          var list := Split(names, ",");
          SeveralPhysicians(list, SeveralNamesClause(list))
      else SpecialtyLabel(text, Upper(text))
  }

  /**
   * The search `get_locator_for_search` builds: any free cell exactly when
   * there is no specificity; a physician search exactly when the marker
   * occurs, naming the text after it, one comma-free name or at least two
   * comma-free names that rebuild that text and are or-ed; otherwise the
   * label as written and upper-cased.
   */
  lemma LocatorForSearchShape(specific: Option<string>)
    ensures var r := GetLocatorForSearch(specific);
            && (r.AnyFreeCell? <==> specific.None?)
            && (r.OnePhysician? || r.SeveralPhysicians? <==> specific.Some? && Contains(specific.value, FioMarker))
            && (r.OnePhysician? ==> r.name == Split(specific.value, FioMarker)[1] && !Contains(r.name, ","))
            && (r.SeveralPhysicians? ==>
                  && |r.names| >= 2
                  && Join(r.names, ",") == Split(specific.value, FioMarker)[1]
                  && (forall i :: 0 <= i < |r.names| ==> !Contains(r.names[i], ","))
                  && r.clause == Join(Clauses(r.names), " or "))
            && (r.SpecialtyLabel? ==> r.original == specific.value && r.upper == Upper(specific.value))
  {
    if specific.Some? && Contains(specific.value, FioMarker) {
      var names := Split(specific.value, FioMarker)[1];
      if Contains(names, ",") {
        SplitJoin(names, ",");
        SplitPiecesFree(names, ",");
        SplitSingle(names, ",");
      }
    }
  }
}
