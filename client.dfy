/**
  The client's protocol logic: choosing the username, the send guard and
  framing of outgoing messages, and the dispatch of incoming lines between
  the chat view and the roster. The Swing window becomes the list of texts
  it displays, one per panel, and the socket the list of lines written to it.
*/
module ChatClient {
  import opened Wrappers
  import opened JavaString
  import opened Username
  import opened Codec
  import opened Protocol

  /** The name used when the dialog is cancelled or left blank. */
  const Anonymous: string := "Anonymous"

  /** The `StringBuilder` seed of `updateActiveUsers`. */
  const ActiveUsersPrefix: string := "Active Users: "

  /** The outcome of the username dialog: a name to connect with, or exit. */
  datatype Choice = Chosen(name: string) | Exit

  lemma AnonymousIsName()
    ensures IsName(Anonymous)
  {
    assert forall i :: 0 <= i < |Anonymous| ==> IsNameChar(Anonymous[i]);
  }

  /** Lines 61-68 of the constructor, for dialog input `input` (`None` when
      the dialog is cancelled). */
  function ChooseUsername(input: Option<string>): Choice {
    if input.None? || IsBlank(input.value) then Chosen(Anonymous)
    else if ClientIsValidUsername(input.value) then Chosen(input.value)
    else Exit
  }

  /** Null or blank input falls back to `Anonymous`; any other input is kept
      when it is a valid name and ends the program otherwise. Every name that
      gets through is one the server accepts. */
  lemma ChooseUsernameSpec(input: Option<string>)
    ensures input.None? || IsBlank(input.value) ==> ChooseUsername(input) == Chosen(Anonymous)
    ensures input.Some? && !IsBlank(input.value) ==>
      (ChooseUsername(input).Chosen? <==> IsName(input.value)) &&
      (ChooseUsername(input).Chosen? ==> ChooseUsername(input).name == input.value)
    ensures ChooseUsername(input).Chosen? ==> ServerIsValidUsername(Some(ChooseUsername(input).name))
  {
    AnonymousIsName();
  }

  /** The guard of `actionPerformed`: `!message.trim().isEmpty()`. */
  predicate ShouldSend(message: string) {
    !IsBlank(message)
  }

  /** A message goes out exactly when some character of it lies above U+0020. */
  lemma ShouldSendIff(message: string)
    ensures ShouldSend(message) <==> exists i :: 0 <= i < |message| && !IsTrimmable(message[i])
  {
    BlankIff(message);
  }

  /** What the roster panel shows for a line carrying the roster prefix: the
      names the rest of the line splits into, after the seed and separated by
      `", "`. A line whose rest splits into no field at all (such as
      `"USERLIST:, "`) leaves the seed with its own last two characters cut. */
  function RosterText(msg: string): string
    requires StartsWith(msg, RosterPrefix)
  {
    var users := Split(msg[|RosterPrefix|..], RosterSeparator);
    if users == [] then ActiveUsersPrefix[..|ActiveUsersPrefix| - 2]
    else ActiveUsersPrefix + Join(RosterSeparator, users)
  }

  /** The `StringBuilder` of `updateActiveUsers` once the fields `users`
      have been appended, each followed by `", "`. */
  function Built(users: seq<string>): (r: string)
    ensures users != [] ==> r == ActiveUsersPrefix + Join(RosterSeparator, users) + RosterSeparator
  {
    if users == [] then ActiveUsersPrefix
    else
      var init := users[..|users| - 1];
      var last := users[|users| - 1];
      assert users == init + [last];
      assert init != [] ==> Join(RosterSeparator, users) == Join(RosterSeparator, init) + RosterSeparator + last by {
        if init != [] { JoinSnoc(RosterSeparator, init, last); }
      }
      Built(init) + last + RosterSeparator
  }

  /** Appending field `i` extends the builder over the first `i` fields. */
  lemma BuiltNext(users: seq<string>, i: nat)
    requires i < |users|
    ensures Built(users[..i + 1]) == Built(users[..i]) + users[i] + RosterSeparator
  {
    assert users[..i + 1][..i] == users[..i];
  }

  /** Cutting the last two characters of the full builder gives the roster text. */
  lemma BuiltAll(msg: string, users: seq<string>)
    requires StartsWith(msg, RosterPrefix)
    requires users == Split(msg[|RosterPrefix|..], RosterSeparator)
    ensures users[..|users|] == users
    ensures |Built(users)| > 2
    ensures Built(users)[..|Built(users)| - 2] == RosterText(msg)
  {
    assert users[..|users|] == users;
    if users != [] {
      var joined := ActiveUsersPrefix + Join(RosterSeparator, users);
      assert Built(users) == joined + RosterSeparator;
      assert (joined + RosterSeparator)[..|joined|] == joined;
    }
  }

  /** What the window shows for one incoming line (lines 271-275). */
  function Render(msg: string): string {
    if StartsWith(msg, RosterPrefix) then RosterText(msg) else msg
  }

  /** The panels shown for `lines`, one per line, in order. */
  function Rendered(lines: seq<string>): (r: seq<string>)
    ensures |r| == |lines|
    ensures forall i :: 0 <= i < |lines| ==> r[i] == Render(lines[i])
  {
    if lines == [] then [] else Rendered(lines[..|lines| - 1]) + [Render(lines[|lines| - 1])]
  }

  /** The empty roster line shows the seed alone. */
  lemma EmptyRosterText()
    ensures RosterText(RosterPrefix) == ActiveUsersPrefix
  {
    assert RosterPrefix[|RosterPrefix|..] == [];
  }

  /** The roster line the server builds from valid names shows exactly those
      names, in order, after the seed; with no names, the seed alone. */
  lemma RosterLineShown(activeUsers: seq<string>)
    requires forall k :: 0 <= k < |activeUsers| ==> IsName(activeUsers[k])
    ensures Render(RosterLine(activeUsers)) == ActiveUsersPrefix + Join(RosterSeparator, activeUsers)
  {
    RosterLineBody(activeUsers);
    if activeUsers == [] {
      assert RosterLine(activeUsers)[|RosterPrefix|..] == [];
      assert Split([], RosterSeparator) == [[]];
      assert ActiveUsersPrefix + Join(RosterSeparator, [[]]) == ActiveUsersPrefix;
    } else {
      RosterSplitsBack(activeUsers);
    }
  }

  /** Chat lines and the rejection line are shown as they arrive. */
  lemma ServerLinesShownVerbatim(time: string, username: string, text: string)
    ensures Render(ChatLine(time, username, text)) == ChatLine(time, username, text)
    ensures Render(Rejection) == Rejection
  {
    ChatLineIsNotRoster(time, username, text);
    RejectionIsNotRoster();
  }

  /** One `Client`: its username, whether it has exited, the text field,
      the lines written to the server and the panels displayed. */
  class Client {
    var username: string
    var exited: bool
    var text: string
    var outgoing: seq<string>
    var display: seq<string>

    /** The constructor: the username dialog (`input`), then `connectToServer`,
        which writes the username and CRLF unless the connection fails
        (`connects` false), in which case the program exits. */
    constructor (input: Option<string>, connects: bool)
      ensures text == "" && display == []
      ensures ChooseUsername(input).Exit? ==> exited && outgoing == []
      ensures ChooseUsername(input).Chosen? ==>
        username == ChooseUsername(input).name && exited == !connects &&
        outgoing == if connects then [username + CRLF] else []
    {
      username, text, outgoing, display, exited := "", "", [], [], false;
      new;
      if input.None? || IsBlank(input.value) {
        username := Anonymous;
      } else {
        username := input.value;
        if !ClientIsValidUsername(username) {
          exited := true;
        }
      }
      if !exited {
        if connects {
          outgoing := outgoing + [username + CRLF];
        } else {
          exited := true;
        }
      }
    }

    /** `sendMessage`: the encrypted message and CRLF, unless the write fails. */
    method SendMessage(message: string, fails: bool) returns (ok: bool)
      modifies this`outgoing
      ensures ok == !fails
      ensures outgoing == old(outgoing) + if ok then [Frame(message)] else []
    {
      ok := !fails;
      if ok {
        outgoing := outgoing + [Encrypt(message) + CRLF];
      }
    }

    /** `actionPerformed`: send the field's text, untrimmed, only when it is
        not blank, and clear the field only once the send went through. */
    method ActionPerformed(sendFails: bool)
      modifies this`text, this`outgoing
      ensures !ShouldSend(old(text)) ==> text == old(text) && outgoing == old(outgoing)
      ensures ShouldSend(old(text)) ==>
        outgoing == old(outgoing) + (if sendFails then [] else [Frame(old(text))]) &&
        text == if sendFails then old(text) else ""
    {
      var message := text;
      if !IsBlank(message) {
        var ok := SendMessage(message, sendFails);
        if ok {
          text := "";
        }
      }
    }

    /** `displayMessage`: one more panel. */
    method DisplayMessage(message: string)
      modifies this`display
      ensures display == old(display) + [message]
    {
      display := display + [message];
    }

    /** `updateActiveUsers`: split the rest of the line at `", "`, append each
        field and `", "` to the seed, cut the last two characters (the
        builder always holds more than two, so the cut always happens) and
        display the result. */
    method UpdateActiveUsers(msg: string)
      requires StartsWith(msg, RosterPrefix)
      modifies this`display
      ensures display == old(display) + [RosterText(msg)]
    {
      var users := Split(msg[|RosterPrefix|..], RosterSeparator);
      var builder := ActiveUsersPrefix;
      for i := 0 to |users|
        invariant builder == Built(users[..i])
        invariant display == old(display)
      {
        BuiltNext(users, i);
        builder := builder + users[i] + RosterSeparator;
      }
      BuiltAll(msg, users);
      if |builder| > 2 {
        builder := builder[..|builder| - 2];
      }
      DisplayMessage(builder);
    }

    /** `run`: each line read goes to the roster when it carries the roster
        prefix and is displayed as it is otherwise; a lost connection
        (`lost`) ends the program once the lines read before it are shown. */
    method Run(lines: seq<string>, lost: bool)
      modifies this`display, this`exited
      ensures display == old(display) + Rendered(lines)
      ensures exited == (old(exited) || lost)
    {
      for i := 0 to |lines|
        invariant display == old(display) + Rendered(lines[..i])
        invariant exited == old(exited)
      {
        var msg := lines[i];
        if !StartsWith(msg, RosterPrefix) {
          DisplayMessage(msg);
        } else {
          UpdateActiveUsers(msg);
        }
        assert lines[..i + 1][..i] == lines[..i];
      }
      assert lines[..|lines|] == lines;
      if lost {
        exited := true;
      }
    }
  }
}
