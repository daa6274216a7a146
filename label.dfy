/**
 * `nj/label.py`, `parse_labels`: the board labels a comma-separated list of
 * names selects. The board's labels are a parameter.
 */
module LabelParsing {
  import opened Strings
  import opened Trello
  import opened Filtering

  /** The names in `raw`: its comma-separated pieces, each stripped of surrounding white space. */
  function LabelNames(raw: string): seq<string> {
    StripAll(Split(raw, ','))
  }

  function StripAll(ps: seq<string>): seq<string> {
    seq(|ps|, i requires 0 <= i < |ps| => Strip(ps[i]))
  }

  /** The comprehension's condition: `_.name in labels`. */
  function NamedIn(names: seq<string>): Label -> bool {
    (l: Label) => l.name in names
  }

  /** `parse_labels`: the board's labels named in `raw`, in board order. */
  function ParseLabels(raw: string, board: seq<Label>): (r: seq<Label>)
    ensures forall l :: l in r ==> l in board && l.name in LabelNames(raw)
  {
    Filter(NamedIn(LabelNames(raw)), board)
  }

  /** The names are the comma-separated pieces, each stripped of surrounding whitespace. */
  lemma LabelNamesSpec(raw: string)
    ensures |LabelNames(raw)| == |Split(raw, ',')|
    ensures Join(Split(raw, ','), ',') == raw && NoSeparator(Split(raw, ','), ',')
    ensures forall i :: 0 <= i < |LabelNames(raw)| ==>
      LabelNames(raw)[i] == Strip(Split(raw, ',')[i]) && Trimmed(LabelNames(raw)[i])
  {
    SplitJoin(raw, ',');
    forall i | 0 <= i < |LabelNames(raw)| ensures Trimmed(LabelNames(raw)[i]) {
      StripTrimmed(Split(raw, ',')[i]);
    }
  }

  /**
   * `parse_labels` lists exactly the board labels whose name is one of the
   * pieces, in board order, each once when the board has it once.
   */
  lemma ParseLabelsSpec(raw: string, board: seq<Label>) returns (idx: seq<nat>)
    ensures forall l :: l in ParseLabels(raw, board) <==> l in board && l.name in LabelNames(raw)
    ensures SubsequenceAt(ParseLabels(raw, board), board, idx)
    ensures forall i :: 0 <= i < |board| && board[i].name in LabelNames(raw) ==> i in idx
    ensures Distinct(board) ==> Distinct(ParseLabels(raw, board))
  {
    FilterMembers(NamedIn(LabelNames(raw)), board);
    idx := FilterIndices(NamedIn(LabelNames(raw)), board);
    if Distinct(board) {
      FilterKeepsDistinct(NamedIn(LabelNames(raw)), board);
    }
  }

  lemma StripAllAppend(ps: seq<string>, qs: seq<string>)
    ensures StripAll(ps + qs) == StripAll(ps) + StripAll(qs)
  {
    assert |StripAll(ps + qs)| == |StripAll(ps) + StripAll(qs)|;
    forall i | 0 <= i < |ps + qs| ensures StripAll(ps + qs)[i] == (StripAll(ps) + StripAll(qs))[i] {
      if i >= |ps| { assert (ps + qs)[i] == qs[i - |ps|]; }
    }
  }

  /** Naming the labels a second time selects nothing more. */
  lemma ParseLabelsRepeated(raw: string, board: seq<Label>)
    ensures ParseLabels(raw + "," + raw, board) == ParseLabels(raw, board)
  {
    var ps := Split(raw, ',');
    assert LabelNames(raw + "," + raw) == LabelNames(raw) + LabelNames(raw) by {
      assert raw + "," + raw == raw + [','] + raw;
      SplitAppend(raw, raw, ',');
      StripAllAppend(ps, ps);
    }
    FilterAgreeing(NamedIn(LabelNames(raw + "," + raw)), NamedIn(LabelNames(raw)), board);
  }

  /** A name no board label has is dropped, with no error and no effect. */
  lemma ParseLabelsIgnoresUnknown(raw: string, extra: string, board: seq<Label>)
    requires ',' !in extra
    requires forall i :: 0 <= i < |board| ==> board[i].name != Strip(extra)
    ensures ParseLabels(raw + "," + extra, board) == ParseLabels(raw, board)
  {
    assert LabelNames(raw + "," + extra) == LabelNames(raw) + [Strip(extra)] by {
      assert raw + "," + extra == raw + [','] + extra;
      SplitAppend(raw, extra, ',');
      SplitUnique([extra], ',');
      StripAllAppend(Split(raw, ','), [extra]);
    }
    FilterAgreeing(NamedIn(LabelNames(raw + "," + extra)), NamedIn(LabelNames(raw)), board);
  }
}
