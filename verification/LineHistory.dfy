/** The editor's history (`history_t`). */
module LineHistory {
  import opened Bytes
  import opened Wrappers
  import opened LineDoc

  class History {
    var entries: seq<seq<Byte>>
    var viewingIdx: Option<nat>
    var backupLine: seq<Byte>

    ghost function Abs(): Hist
      reads this
    {
      Hist(entries, viewingIdx, backupLine)
    }

    constructor ()
      ensures Abs() == Hist([], None, [])
    {
      entries, viewingIdx, backupLine := [], None, [];
    }

    method AddLine(line: seq<Byte>)
      modifies this
      ensures Abs() == Add(old(Abs()), line)
    {
      if line == [] {
        return;
      }
      if entries == [] || entries[|entries| - 1] != line {
        entries := entries + [line];
      }
      EndView();
    }

    method PrevLine() returns (line: Option<seq<Byte>>)
      requires ValidHist(Abs())
      modifies this
      ensures (Abs(), line) == Prev(old(Abs())) && ValidHist(Abs())
      ensures line.Some? ==>
                var from := old(viewingIdx.value);
                viewingIdx == Some(if from > 0 then from - 1 else 0) && line == Some(entries[viewingIdx.value])
    {
      if entries == [] || viewingIdx == None {
        return None;
      }
      if viewingIdx.value > 0 {
        viewingIdx := Some(viewingIdx.value - 1);
      }
      return Some(entries[viewingIdx.value]);
    }

    method NextLine() returns (line: Option<seq<Byte>>)
      requires ValidHist(Abs())
      modifies this
      ensures (Abs(), line) == Next(old(Abs())) && ValidHist(Abs())
    {
      if entries == [] || viewingIdx == None {
        return None;
      }
      viewingIdx := Some(viewingIdx.value + 1);
      if viewingIdx.value >= |entries| {
        line := Some(backupLine);
        EndView();
      } else {
        line := Some(entries[viewingIdx.value]);
      }
    }

    method BeginView(line: seq<Byte>)
      modifies this
      ensures Abs() == Begin(old(Abs()), line)
    {
      backupLine := line;
      viewingIdx := Some(|entries|);
    }

    method EndView()
      modifies this
      ensures Abs() == EndViewing(old(Abs()))
    {
      viewingIdx := None;
      backupLine := [];
    }

    predicate IsViewing()
      reads this
    {
      viewingIdx != None
    }
  }
}
