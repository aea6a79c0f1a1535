/**
 * Line-level diff results and their rendering by `PrintDiff`.  The diff
 * engine itself (a foreign library) is represented only by what its
 * result must satisfy: an edit script whose kept and deleted texts spell
 * the old block and whose kept and inserted texts spell the new one.
 */
module HeaderDiff {

  /** One operation of an edit script, with the text it applies to. */
  datatype DiffOp = Equal(text: string) | Delete(text: string) | Insert(text: string)

  /** What one operation contributes to the rendered diff. */
  function Render(op: DiffOp): string {
    match op
    case Delete(t) => "- " + t
    case Insert(t) => "+ " + t
    case Equal(_) => ""
  }

  /** The rendered diff: each operation's contribution, in order. */
  function DiffText(diff: seq<DiffOp>): string {
    if |diff| == 0 then "" else Render(diff[0]) + DiffText(diff[1..])
  }

  /** The script contains at least one deletion or insertion. */
  predicate HasEdit(diff: seq<DiffOp>) {
    exists i :: 0 <= i < |diff| && !diff[i].Equal?
  }

  /** The log lines `PrintDiff` produces: one "Headers differ" entry, or none. */
  function HeaderDiffLog(diff: seq<DiffOp>): seq<string> {
    var output := DiffText(diff);
    if |output| > 0 then ["Headers differ:\n" + output] else []
  }

  /** Rendering distributes over concatenation of scripts. */
  lemma {:induction false} DiffTextConcat(d1: seq<DiffOp>, d2: seq<DiffOp>)
    ensures DiffText(d1 + d2) == DiffText(d1) + DiffText(d2)
    decreases |d1|
  {
    if |d1| == 0 {
      assert d1 + d2 == d2;
    } else {
      assert (d1 + d2)[0] == d1[0] && (d1 + d2)[1..] == d1[1..] + d2;
      DiffTextConcat(d1[1..], d2);
    }
  }

  /** The rendered diff is non-empty exactly when the script edits something. */
  lemma {:induction false} DiffTextEmptyIff(diff: seq<DiffOp>)
    ensures |DiffText(diff)| > 0 <==> HasEdit(diff)
    decreases |diff|
  {
    if |diff| > 0 {
      DiffTextEmptyIff(diff[1..]);
      if HasEdit(diff[1..]) {
        var i :| 0 <= i < |diff[1..]| && !diff[1..][i].Equal?;
        assert !diff[i + 1].Equal?;
      }
      if HasEdit(diff) && diff[0].Equal? {
        var i :| 0 <= i < |diff| && !diff[i].Equal?;
        assert !diff[1..][i - 1].Equal?;
      }
    }
  }

  /** Something is logged exactly when the script deletes or inserts; an all-Equal script logs nothing. */
  lemma HeaderDiffLogIff(diff: seq<DiffOp>)
    ensures HeaderDiffLog(diff) != [] <==> HasEdit(diff)
    ensures HasEdit(diff) ==> HeaderDiffLog(diff) == ["Headers differ:\n" + DiffText(diff)]
  {
    DiffTextEmptyIff(diff);
  }

  /** PrintDiff: folds the script into one string and logs it when it is non-empty. */
  method PrintDiff(diff: seq<DiffOp>) returns (logged: seq<string>)
    ensures logged == HeaderDiffLog(diff)
  {
    var output := "";
    for i := 0 to |diff|
      invariant output == DiffText(diff[..i])
    {
      var change := diff[i];
      match change {
        case Delete(t) =>
          output := output + "- " + t;
        case Insert(t) =>
          output := output + "+ " + t;
        case Equal(_) =>
      }
      assert DiffText([change]) == Render(change);
      DiffTextConcat(diff[..i], [change]);
      assert diff[..i + 1] == diff[..i] + [change];
    }
    assert diff[..|diff|] == diff;
    assert output == DiffText(diff);
    logged := [];
    if |output| > 0 {
      logged := ["Headers differ:\n" + output];
    }
  }

  /** The text the script keeps or deletes: the old side. */
  function OldText(diff: seq<DiffOp>): string {
    if |diff| == 0 then ""
    else (if diff[0].Insert? then "" else diff[0].text) + OldText(diff[1..])
  }

  /** The text the script keeps or inserts: the new side. */
  function NewText(diff: seq<DiffOp>): string {
    if |diff| == 0 then ""
    else (if diff[0].Delete? then "" else diff[0].text) + NewText(diff[1..])
  }

  /** `diff` is an edit script turning `a` into `b`. */
  predicate ValidScript(diff: seq<DiffOp>, a: string, b: string) {
    OldText(diff) == a && NewText(diff) == b
  }

  /** A script of Equal operations only has the same old and new side. */
  lemma {:induction false} UneditedSidesAgree(diff: seq<DiffOp>)
    requires !HasEdit(diff)
    ensures OldText(diff) == NewText(diff)
    decreases |diff|
  {
    if |diff| > 0 {
      assert diff[0].Equal?;
      assert forall i :: 0 <= i < |diff[1..]| ==> diff[1..][i] == diff[i + 1];
      UneditedSidesAgree(diff[1..]);
    }
  }

  /** A valid script between different blocks is always logged. */
  lemma DifferentBlocksLogged(diff: seq<DiffOp>, a: string, b: string)
    requires ValidScript(diff, a, b) && a != b
    ensures HeaderDiffLog(diff) == ["Headers differ:\n" + DiffText(diff)]
  {
    if !HasEdit(diff) {
      UneditedSidesAgree(diff);
    }
    HeaderDiffLogIff(diff);
  }

  /**
   * What the comparator relies on from the diff engine: every result is a
   * valid script between its inputs, and identical inputs give a script
   * of Equal operations only.
   */
  ghost predicate IsLineDiffer(differ: (string, string) -> seq<DiffOp>) {
    (forall a, b :: ValidScript(differ(a, b), a, b)) &&
    (forall a :: !HasEdit(differ(a, a)))
  }

  /** The whole old block against the whole new block: the coarsest engine meeting `IsLineDiffer`. */
  function WholeBlockDiff(a: string, b: string): (diff: seq<DiffOp>)
    ensures ValidScript(diff, a, b)
    ensures a == b ==> !HasEdit(diff)
  {
    if a == b then [Equal(a)]
    else
      var diff := [Delete(a), Insert(b)];
      assert diff[1..] == [Insert(b)] && diff[1..][1..] == [];
      assert OldText(diff[1..]) == "" && NewText(diff[1..]) == b;
      diff
  }

  lemma WholeBlockDiffIsLineDiffer()
    ensures IsLineDiffer(WholeBlockDiff)
  {
  }
}
