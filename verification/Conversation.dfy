/** The bounded conversation history: trimmed on write, per bot, without touching any other bot. */
module Conversation {
  const CONVERSATION_TURN_LIMIT: nat := 12

  /** Rows in the order of their ids. */
  datatype Turn = Turn(bot: nat, role: string, content: string)

  predicate RoleOk(role: string) { role == "user" || role == "assistant" }

  function Of(rows: seq<Turn>, bot: nat): (mine: seq<Turn>)
    ensures |mine| <= |rows|
  {
    if rows == [] then []
    else
      var front, last := Of(rows[..|rows| - 1], bot), rows[|rows| - 1];
      if last.bot == bot then front + [last] else front
  }

  function LastOf<T>(s: seq<T>, n: nat): seq<T> { if |s| <= n then s else s[|s| - n..] }

  /** The delete: of one bot's rows only the last `keep` by id stay. */
  function Trimmed(rows: seq<Turn>, bot: nat, keep: nat): seq<Turn>
    decreases |rows|
  {
    if rows == [] then []
    else
      var front, last := rows[..|rows| - 1], rows[|rows| - 1];
      if last.bot != bot then Trimmed(front, bot, keep) + [last]
      else if keep == 0 then Trimmed(front, bot, 0)
      else Trimmed(front, bot, keep - 1) + [last]
  }

  lemma OfSnoc(rows: seq<Turn>, t: Turn, bot: nat)
    ensures Of(rows + [t], bot) == if t.bot == bot then Of(rows, bot) + [t] else Of(rows, bot)
  {
    assert (rows + [t])[..|rows|] == rows;
  }

  lemma LastOfSnoc<T>(s: seq<T>, t: T, n: nat)
    ensures LastOf(s + [t], n) == if n == 0 then [] else LastOf(s, n - 1) + [t]
  {
  }

  /** Trimming one bot keeps exactly its last turns and every turn of everybody else. */
  lemma {:induction false} TrimKeepsTheLast(rows: seq<Turn>, bot: nat, keep: nat, other: nat)
    ensures Of(Trimmed(rows, bot, keep), other) == if other == bot then LastOf(Of(rows, bot), keep) else Of(rows, other)
    decreases |rows|
  {
    if rows != [] {
      var front, last := rows[..|rows| - 1], rows[|rows| - 1];
      var left := if last.bot == bot && keep > 0 then keep - 1 else keep;
      TrimKeepsTheLast(front, bot, left, other);
      OfSnoc(Trimmed(front, bot, left), last, other);
      LastOfSnoc(Of(front, bot), last, keep);
      NoneLeft(Of(front, bot));
      hide LastOf;
    }
  }

  lemma NoneLeft<T>(s: seq<T>)
    ensures LastOf(s, 0) == []
  {
  }

  class TurnTable {
    var rows: seq<Turn>
    /** Everything ever appended for each bot, trimmed or not. */
    ghost var said: seq<Turn>

    ghost predicate Valid()
      reads this
    {
      forall bot: nat :: Of(rows, bot) == LastOf(Of(said, bot), CONVERSATION_TURN_LIMIT)
    }

    constructor ()
      ensures Valid() && rows == [] && said == []
    {
      rows, said := [], [];
    }

    method AppendTurn(bot: nat, role: string, content: string) returns (ok: bool)
      requires Valid()
      modifies this
      ensures Valid() && (ok <==> role == "user" || role == "assistant")
      ensures said == if ok then old(said) + [Turn(bot, role, content)] else old(said)
    {
      if !RoleOk(role) { return false; }
      var turn := Turn(bot, role, content);
      ghost var before := rows;
      rows := Trimmed(rows + [turn], bot, CONVERSATION_TURN_LIMIT);
      said := said + [turn];
      forall other: nat ensures Of(rows, other) == LastOf(Of(said, other), CONVERSATION_TURN_LIMIT) {
        TrimKeepsTheLast(before + [turn], bot, CONVERSATION_TURN_LIMIT, other);
        OfSnoc(before, turn, other);
        OfSnoc(old(said), turn, other);
        LastSnoc(Of(old(said), other), turn, CONVERSATION_TURN_LIMIT);
      }
      return true;
    }

    /** The last twelve turns of a bot, oldest first. */
    method RecentTurns(bot: nat) returns (turns: seq<Turn>)
      requires Valid()
      ensures turns == LastOf(Of(said, bot), 12) && |turns| <= 12
    {
      turns := Of(rows, bot);
    }
  }

  lemma LastSnoc<T>(s: seq<T>, t: T, n: nat)
    requires n > 0
    ensures LastOf(LastOf(s, n) + [t], n) == LastOf(s + [t], n)
  {
  }
}
