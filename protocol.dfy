/** The lines the server writes to its clients. */
module Protocol {
  import opened JavaString
  import opened Username

  const RosterPrefix: string := "USERLIST:"
  const RosterSeparator: string := ", "

  /** Written to a client whose first line is not a valid username. */
  const Rejection: string := "Invalid username. Disconnecting."

  /** `String.format("[%s] %s: %s", time, username, text)`. */
  function ChatLine(time: string, username: string, text: string): string {
    "[" + time + "] " + username + ": " + text
  }

  /** `"USERLIST:" + String.join(", ", activeUsers)`. */
  function RosterLine(activeUsers: seq<string>): string {
    RosterPrefix + Join(RosterSeparator, activeUsers)
  }

  /** A chat line opens with `[`, so it never carries the roster prefix. */
  lemma ChatLineIsNotRoster(time: string, username: string, text: string)
    ensures !StartsWith(ChatLine(time, username, text), RosterPrefix)
  {
    assert ChatLine(time, username, text)[0] == '[';
  }

  /** The rejection line does not carry the roster prefix either. */
  lemma RejectionIsNotRoster()
    ensures !StartsWith(Rejection, RosterPrefix)
  {
    assert Rejection[0] == 'I';
  }

  /** The roster line carries the prefix, and what follows it is the join. */
  lemma RosterLineBody(activeUsers: seq<string>)
    ensures StartsWith(RosterLine(activeUsers), RosterPrefix)
    ensures RosterLine(activeUsers)[|RosterPrefix|..] == Join(RosterSeparator, activeUsers)
  {
  }

  /** A roster of valid names splits back into the names, in order. */
  lemma RosterSplitsBack(activeUsers: seq<string>)
    requires activeUsers != []
    requires forall k :: 0 <= k < |activeUsers| ==> IsName(activeUsers[k])
    ensures Split(Join(RosterSeparator, activeUsers), RosterSeparator) == activeUsers
  {
    NamesAvoidSeparator(activeUsers);
    SplitJoin(activeUsers, RosterSeparator);
  }

  /** Valid names are non-empty and hold no comma, the separator's first character. */
  lemma NamesAvoidSeparator(names: seq<string>)
    requires forall k :: 0 <= k < |names| ==> IsName(names[k])
    ensures forall k :: 0 <= k < |names| ==> names[k] != []
    ensures forall k, i :: 0 <= k < |names| && 0 <= i < |names[k]| ==> names[k][i] != RosterSeparator[0]
  {
    forall k, i | 0 <= k < |names| && 0 <= i < |names[k]|
      ensures names[k][i] != RosterSeparator[0]
    {
      assert IsNameChar(names[k][i]);
    }
  }
}
