/**
 * The command palette's ranking of a command against the search text, and
 * the grouping of commands by section.
 */
module CommandPalette {
  import opened Text
  import opened Sequences

  /** The rank the filter gives: substring match, in-order match, or none. */
  function FilterScore(value: string, search: string): (r: real)
    ensures r == 1.0 || r == 0.5 || r == 0.0
    ensures r == 1.0 <==> Contains(Lower(value), Lower(search))
    ensures r == 0.5 <==> !Contains(Lower(value), Lower(search)) && IsSubsequence(Lower(search), Lower(value))
  {
    var lv := Lower(value);
    var ls := Lower(search);
    if Contains(lv, ls) then 1.0 else if IsSubsequence(ls, lv) then 0.5 else 0.0
  }

  /**
   * The inline `filter`: 1 when the lower-cased value contains the
   * lower-cased search, else 0.5 when one left-to-right scan of the value
   * meets every search character in order, else 0.
   */
  method Score(value: string, search: string) returns (score: real)
    ensures score == FilterScore(value, search)
  {
    var lowerValue := Lower(value);
    var lowerSearch := Lower(search);
    if Contains(lowerValue, lowerSearch) {
      return 1.0;
    }
    ContainsEmpty(lowerValue);
    var searchIndex := 0;
    var i := 0;
    while i < |lowerValue|
      invariant 0 <= i <= |lowerValue|
      invariant 0 <= searchIndex < |lowerSearch|
      invariant IsSubsequence(lowerSearch, lowerValue) <==>
                IsSubsequence(lowerSearch[searchIndex..], lowerValue[i..])
    {
      var t := lowerSearch[searchIndex..];
      var s := lowerValue[i..];
      if lowerValue[i] == lowerSearch[searchIndex] {
        GreedyMatch(t, s);
        assert t[1..] == lowerSearch[searchIndex + 1..] && s[1..] == lowerValue[i + 1..];
        searchIndex := searchIndex + 1;
        if searchIndex == |lowerSearch| {
          assert IsSubsequence(lowerSearch[searchIndex..], lowerValue[i + 1..]);
          return 0.5;
        }
      } else {
        assert s[1..] == lowerValue[i + 1..];
      }
      i := i + 1;
    }
    assert lowerValue[i..] == [];
    return 0.0;
  }

  /** The score depends only on the lower-cased texts. */
  lemma ScoreIgnoresCase(value: string, search: string)
    ensures FilterScore(Lower(value), Lower(search)) == FilterScore(value, search)
  {
    LowerIdempotent(value);
    LowerIdempotent(search);
  }

  /** An empty search matches every command fully. */
  lemma EmptySearchScoresOne(value: string)
    ensures FilterScore(value, "") == 1.0
  {
    ContainsEmpty(Lower(value));
  }

  /** A substring is also an in-order match, so a score of 0 means neither. */
  lemma ContainedIsInOrder(s: string, t: string)
    requires Contains(s, t)
    ensures IsSubsequence(t, s)
  {
    var i: nat :| i <= |s| - |t| && OccursAt(s, t, i);
    SliceIsSubsequence(s, i, i + |t|);
  }

  /** The three sections a command can belong to. */
  datatype Group = Navigation | Actions | Theme

  /** A palette entry; only its identifier, label and section matter here. */
  datatype Command = Command(id: string, labelText: string, group: Group)

  /** The commands of section `g`, in their order. */
  function CommandsIn(commands: seq<Command>, g: Group): seq<Command>
  {
    if commands == [] then []
    else
      var last := commands[|commands| - 1];
      CommandsIn(commands[..|commands| - 1], g) + (if last.group == g then [last] else [])
  }

  /** A section lists exactly the commands that name it, in their order. */
  lemma {:induction false} CommandsInIsFilter(commands: seq<Command>, g: Group)
    ensures CommandsIn(commands, g) == Filter(commands, (c: Command) => c.group == g)
    decreases |commands|
  {
    if commands != [] {
      var init := commands[..|commands| - 1];
      var last := commands[|commands| - 1];
      CommandsInIsFilter(init, g);
      FilterSnoc(init, last, (c: Command) => c.group == g);
      assert init + [last] == commands;
    }
  }

  /** The three sections together hold every command exactly once. */
  lemma {:induction false} SectionsPartition(commands: seq<Command>)
    ensures |CommandsIn(commands, Navigation)| + |CommandsIn(commands, Actions)| + |CommandsIn(commands, Theme)| == |commands|
    decreases |commands|
  {
    if commands != [] {
      SectionsPartition(commands[..|commands| - 1]);
    }
  }

  /** Whether some command names section `g`. */
  predicate HasSection(commands: seq<Command>, g: Group)
  {
    exists i :: 0 <= i < |commands| && commands[i].group == g
  }

  /** A section no command names is empty. */
  lemma {:induction false} NoSectionEmpty(commands: seq<Command>, g: Group)
    requires !HasSection(commands, g)
    ensures CommandsIn(commands, g) == []
    decreases |commands|
  {
    if commands != [] {
      var init := commands[..|commands| - 1];
      NoSectionEmpty(init, g);
    }
  }

  /**
   * `groupedCommands`: one pass over the commands, appending each to the list
   * of its section and creating that list when it is first needed.
   */
  method GroupCommands(commands: seq<Command>) returns (groups: map<Group, seq<Command>>)
    ensures forall g :: g in groups <==> HasSection(commands, g)
    ensures forall g :: g in groups ==> groups[g] == CommandsIn(commands, g)
  {
    groups := map[];
    var i := 0;
    while i < |commands|
      invariant 0 <= i <= |commands|
      invariant forall g :: g in groups <==> HasSection(commands[..i], g)
      invariant forall g :: g in groups ==> groups[g] == CommandsIn(commands[..i], g)
    {
      var cmd := commands[i];
      assert commands[..i + 1][..i] == commands[..i];
      assert commands[..i + 1][i] == cmd;
      if cmd.group !in groups {
        NoSectionEmpty(commands[..i], cmd.group);
        groups := groups[cmd.group := []];
      }
      groups := groups[cmd.group := groups[cmd.group] + [cmd]];
      forall g ensures g in groups <==> HasSection(commands[..i + 1], g) {
        if HasSection(commands[..i], g) {
          var j :| 0 <= j < i && commands[..i][j].group == g;
          assert commands[..i + 1][j].group == g;
        }
        if HasSection(commands[..i + 1], g) && g != cmd.group {
          var j :| 0 <= j < i + 1 && commands[..i + 1][j].group == g;
          assert commands[..i][j].group == g;
        }
        assert commands[..i + 1][i] == cmd;
      }
      i := i + 1;
    }
    assert commands[..i] == commands;
  }
}
