/**
  How the two programs fit together on the wire: what the server reads from
  what the client writes, and what the client shows for what the server
  writes.
*/
module Interop {
  import opened Wrappers
  import opened JavaString
  import opened Username
  import opened Codec
  import opened Protocol
  import opened ChatServer
  import opened ChatClient

  /** Names hold no line breaks. */
  lemma NameHasNoLineBreak(name: string)
    requires IsName(name)
    ensures NoLineBreak(name)
  {
    forall i | 0 <= i < |name| ensures name[i] != '\n' && name[i] != '\r' {
      assert IsNameChar(name[i]);
    }
  }

  /** The username line `connectToServer` writes for any name the dialog lets
      through is read back whole by the server, which lets the session join. */
  lemma {:induction false} ChosenNameJoins(input: Option<string>, rest: string)
    requires ChooseUsername(input).Chosen?
    ensures var name := ChooseUsername(input).name;
      ReadLine(name + CRLF + rest) == Some((name, rest)) && Joins(Line(name))
  {
    ChooseUsernameSpec(input);
    var name := ChooseUsername(input).name;
    NameHasNoLineBreak(name);
    ReadLineCrlf(name, rest);
  }

  /** A typed message without line breaks is read by the server as one line
      and decrypts to exactly the text typed; the chat line built from it is
      shown verbatim. */
  lemma {:induction false} TypedMessageRelayed(message: string, rest: string, time: string, username: string)
    requires NoLineBreak(message)
    ensures ReadLine(Frame(message) + rest).Some?
    ensures var wire := ReadLine(Frame(message) + rest).value.0;
      ChatLine(time, username, Decrypt(wire)) == ChatLine(time, username, message) &&
      Render(ChatLine(time, username, Decrypt(wire))) == ChatLine(time, username, message)
  {
    FrameRoundTrip(message, rest);
    ServerLinesShownVerbatim(time, username, message);
  }

  /** A chat line built from parts without line breaks crosses the wire as one
      line. */
  lemma {:induction false} ChatLineReadsBack(time: string, username: string, text: string, rest: string)
    requires NoLineBreak(time) && NoLineBreak(username) && NoLineBreak(text)
    ensures ReadLine(ChatLine(time, username, text) + CRLF + rest) == Some((ChatLine(time, username, text), rest))
  {
    var line := ChatLine(time, username, text);
    forall i | 0 <= i < |line| ensures line[i] != '\n' && line[i] != '\r' {
      var a := "[" + time + "] ";
      var b := a + username + ": ";
      if i < 1 {
      } else if i < 1 + |time| {
        assert line[i] == time[i - 1];
      } else if i < |a| {
      } else if i < |a| + |username| {
        assert line[i] == username[i - |a|];
      } else if i < |b| {
      } else {
        assert line[i] == text[i - |b|];
      }
    }
    ReadLineCrlf(line, rest);
  }

  /** Every roster line a valid hub can write is shown as the names it lists,
      in order, after `Active Users: `. */
  lemma HubRosterShown(hub: ChatServer.Hub)
    requires hub.Valid()
    ensures Render(RosterLine(hub.activeUsers)) == ActiveUsersPrefix + Join(RosterSeparator, hub.activeUsers)
  {
    forall k | 0 <= k < |hub.activeUsers| ensures IsName(hub.activeUsers[k]) {
      assert hub.activeUsers[k] in hub.activeUsers;
    }
    RosterLineShown(hub.activeUsers);
  }
}
