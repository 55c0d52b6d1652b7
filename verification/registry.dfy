/** The list of phrase entries (`self.entries`): each pairs a text with the
    hotkey that copies it. Entries are identified by position only. */
module Registry {
  import opened Text
  import opened LexOrder
  import opened Hotkeys

  datatype Entry = Entry(text: string, hotkey: string)

  /** `add_preset_entry`, list part: the entry goes at the end and the
      existing entries keep their positions. */
  function Append(entries: seq<Entry>, text: string, hotkey: string): (r: seq<Entry>)
    ensures |r| == |entries| + 1
    ensures r[..|entries|] == entries
    ensures r[|entries|] == Entry(text, hotkey)
  {
    entries + [Entry(text, hotkey)]
  }

  /** `delete_entry(row)`, list part: the entry at `row` is gone and the
      others keep their relative order, those after it moving down one. */
  function RemoveAt(entries: seq<Entry>, row: int): (r: seq<Entry>)
    requires 0 <= row < |entries|
    ensures |r| == |entries| - 1
    ensures forall i :: 0 <= i < row ==> r[i] == entries[i]
    ensures forall i :: row <= i < |r| ==> r[i] == entries[i + 1]
    ensures multiset(r) + multiset{entries[row]} == multiset(entries)
  {
    assert entries == entries[..row] + [entries[row]] + entries[row + 1..];
    entries[..row] + entries[row + 1..]
  }

  /** The rebinding step of the recording branch: only the hotkey of the
      entry at `row` changes. */
  function Rebind(entries: seq<Entry>, row: int, hotkey: string): (r: seq<Entry>)
    requires 0 <= row < |entries|
    ensures |r| == |entries|
    ensures r[row].hotkey == hotkey && r[row].text == entries[row].text
    ensures forall i :: 0 <= i < |r| && i != row ==> r[i] == entries[i]
  {
    entries[row := entries[row].(hotkey := hotkey)]
  }

  /** Removing the entry just appended gives back the list before it. */
  lemma RemoveUndoesAppend(entries: seq<Entry>, text: string, hotkey: string)
    ensures RemoveAt(Append(entries, text, hotkey), |entries|) == entries
  {
  }

  /** Rebinding the same entry twice keeps only the second hotkey, and
      rebinding an entry to its own hotkey changes nothing. */
  lemma RebindLastWins(entries: seq<Entry>, row: int, first: string, second: string)
    requires 0 <= row < |entries|
    ensures Rebind(Rebind(entries, row, first), row, second) == Rebind(entries, row, second)
    ensures Rebind(entries, row, entries[row].hotkey) == entries
  {
  }

  /** The six entries seeded at start-up when no saved entries were loaded. */
  const DefaultEntries: seq<Entry> := [
    Entry("已使自身本场比赛的积分得失加倍!", "cmd+y"),
    Entry("由于挂机行为已经被系统从游戏中踢出，他的战绩也会记录为逃跑，玩家现在离开该场比赛将不会被判定为放弃。", "cmd+u"),
    Entry("已经放弃了游戏，这场比赛不计入天梯积分，剩余玩家可以自由退出。", "cmd+i"),
    Entry("由于长时间没有重连至游戏，系统判定他为逃跑。玩家现在离开该场比赛将不会被判定为放弃。", "cmd+o"),
    Entry("已经连续258次预测他们队伍将取得胜利！", "cmd+p"),
    Entry("经系统检测：玩家XXXXXX存在代练或共享账号嫌疑，遵守社区游戏规范，再次违反将进行封禁处理。", "cmd+[")
  ]

  /** The start-up rule: the loaded entries, or the six defaults when none
      were loaded. The result is never empty, and loaded entries are kept as
      they are. */
  function Seed(loaded: seq<Entry>): (r: seq<Entry>)
    ensures |r| > 0
    ensures |loaded| > 0 ==> r == loaded
    ensures |loaded| == 0 ==> r == DefaultEntries && |r| == 6
  {
    if |loaded| == 0 then DefaultEntries else loaded
  }

  /** Of the six default hotkeys, the first five can fire and the sixth,
      `cmd+[`, never can. */
  lemma DefaultsFirability()
    ensures forall i :: 0 <= i < 5 ==> CanFire(DefaultEntries[i].hotkey)
    ensures !CanFire(DefaultEntries[5].hotkey)
  {
    var keys := ['y', 'u', 'i', 'o', 'p'];
    forall i | 0 <= i < 5
      ensures CanFire(DefaultEntries[i].hotkey)
    {
      var c := keys[i];
      assert DefaultEntries[i].hotkey == "cmd" + [Sep] + [c];
      assert LexLess("cmd", [c]);
      PairInOrder(DefaultEntries[i].hotkey, "cmd", [c]);
    }
    assert DefaultEntries[5].hotkey == "cmd" + [Sep] + "[";
    PairOutOfOrder(DefaultEntries[5].hotkey, "cmd", "[");
  }
}
