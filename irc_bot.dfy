/**
 * The LOLopener IRC bot (class LolOpenerIrcBot): it answers "is it open?"
 * questions, stops on request in a private message, and announces every
 * change the status holder detects.
 */
module IrcBot {
  import opened Wrappers
  import opened Text
  import OpenStatus

  /** A reply dictionary: `{'cmd': {'message': m}}`, or `{'cmd': {'end': '', 'message': m}}`. */
  datatype Command = Say(message: string) | Quit(message: string)

  /** The exceptions `parse_message` can raise. */
  datatype Failure = TypeError | IndexError

  /** What `parse_message` gives back: a reply or None, or an exception. */
  datatype Outcome = Return(reply: Option<Command>) | Raise(failure: Failure)

  const StopPhrase: string := "bot: arrete toi stp"
  const Goodbye: string := "On me demande de m'arreter. Au revoir..."
  const OpenText: string := "Le LOLcal est ouvert !"
  const ClosedText: string := "Le LOLcal est fermé !"

  /** `asked_if_open`: the message asks whether the place is open. */
  predicate AskedIfOpen(message: string) {
    Contains(message, "ouvert ?") || Contains(message, "ouvert?") || Strip(message) == "?"
  }

  /** `asked_if_open` in terms of occurrences: one of the two phrases, or a lone question mark between spaces. */
  lemma AskedIfOpenMeans(message: string)
    ensures AskedIfOpen(message) <==>
      (exists i :: OccursAt(message, "ouvert ?", i))
      || (exists i :: OccursAt(message, "ouvert?", i))
      || (exists i :: 0 <= i < |message| && message[i] == '?' && AllSpace(message[..i]) && AllSpace(message[i + 1..]))
  {
    ContainsIffOccurs(message, "ouvert ?");
    ContainsIffOccurs(message, "ouvert?");
    StripIsQuestionMark(message);
  }

  function IsChannel(target: string): bool {
    StartsWith(target, "#")
  }

  class LolOpenerIrcBot {
    var channel: Option<string>
    var nick: Option<string>
    const openStatus: OpenStatus.LOLOpenStatus
    /** The state last announced, copied from the status holder. */
    var isOpen: Option<bool>

    constructor (nick: Option<string>, channel: Option<string>, openStatus: OpenStatus.LOLOpenStatus)
      ensures this.nick == nick && this.channel == channel && this.openStatus == openStatus
      ensures isOpen == openStatus.openState
    {
      this.channel := channel;
      this.nick := nick;
      this.openStatus := openStatus;
      this.isOpen := openStatus.IsOpen();
    }

    /** `set_nick` changes the nick and nothing else. */
    method SetNick(nick: string)
      modifies this`nick
      ensures this.nick == Some(nick)
    {
      this.nick := Some(nick);
    }

    /** `set_channel` changes the channel and nothing else. */
    method SetChannel(channel: string)
      modifies this`channel
      ensures this.channel == Some(channel)
    {
      this.channel := Some(channel);
    }

    /** `open_message`: the announcement for the state last copied; None reads as closed. */
    function OpenMessage(): (m: string)
      reads this
      ensures OpenStatus.Truthy(isOpen) ==> m == OpenText
      ensures !OpenStatus.Truthy(isOpen) ==> m == ClosedText
    {
      "Le LOLcal " + (if OpenStatus.Truthy(isOpen) then "est ouvert !" else "est fermé !")
    }

    /**
     * `timeout_function`: one `update` of the status holder with the reading
     * `raw`; on a change the bot copies the new state and announces it.
     */
    method TimeoutFunction(raw: int) returns (r: Option<Command>)
      modifies this`isOpen, openStatus
      ensures openStatus.openState == OpenStatus.Next(old(openStatus.openState), raw)
      ensures OpenStatus.Reported(old(openStatus.openState), raw) == Some(true) ==>
        isOpen == openStatus.openState && r == Some(Say(OpenMessage()))
      ensures OpenStatus.Reported(old(openStatus.openState), raw) != Some(true) ==>
        isOpen == old(isOpen) && r == None
    {
      var changed := openStatus.Update(raw);
      if changed == Some(true) {
        isOpen := openStatus.IsOpen();
        return Some(Say(OpenMessage()));
      }
      return None;
    }

    /**
     * `parse_message`: the reaction to one PRIVMSG. The sender `source` is
     * not consulted. A target without a leading '#' is a private message.
     */
    function ParseMessage(message: string, source: string, target: string): Outcome
      reads this
    {
      if !IsChannel(target) then
        if Contains(message, StopPhrase) then Return(Some(Quit(Goodbye)))
        else if AskedIfOpen(message) then Return(Some(Say(OpenMessage())))
        else Return(None)
      else if nick.None? then Raise(TypeError)
      else if !StartsWith(message, nick.value) then Return(None)
      else
        var rest := RemoveAll(message, nick.value);
        if rest == [] then Raise(IndexError)
        else if IsAlnum(rest[0]) then Return(None)
        else if AskedIfOpen(rest[1..]) then Return(Some(Say(OpenMessage())))
        else Return(None)
    }
  }

  /** A private message with the stop phrase always stops the bot, before any open question. */
  lemma PrivateStop(bot: LolOpenerIrcBot, message: string, source: string, target: string)
    requires !IsChannel(target) && Contains(message, StopPhrase)
    ensures bot.ParseMessage(message, source, target) == Return(Some(Quit(Goodbye)))
  {
  }

  /** A private message without the stop phrase gets the announcement exactly when it asks, else no reply. */
  lemma PrivateQuestion(bot: LolOpenerIrcBot, message: string, source: string, target: string)
    requires !IsChannel(target) && !Contains(message, StopPhrase)
    ensures bot.ParseMessage(message, source, target) ==
      Return(if AskedIfOpen(message) then Some(Say(bot.OpenMessage())) else None)
  {
  }

  /** Every reply is the announcement or, in a private message only, the goodbye with the stop command. */
  lemma RepliesAreExact(bot: LolOpenerIrcBot, message: string, source: string, target: string)
    ensures var o := bot.ParseMessage(message, source, target);
      o.Return? && o.reply.Some? ==>
        o.reply.value == Say(bot.OpenMessage()) || (o.reply.value == Quit(Goodbye) && !IsChannel(target))
    ensures bot.ParseMessage(message, source, target).Raise? ==> IsChannel(target)
  {
  }

  /**
   * A channel message gets the announcement exactly when it starts with the
   * nick, the first character left once every nick is removed is not
   * alphanumeric, and what follows that character asks if it is open.
   */
  lemma ChannelReply(bot: LolOpenerIrcBot, message: string, source: string, target: string)
    requires IsChannel(target) && bot.nick.Some?
    ensures var rest := RemoveAll(message, bot.nick.value);
      bot.ParseMessage(message, source, target) == Return(Some(Say(bot.OpenMessage()))) <==>
        StartsWith(message, bot.nick.value) && rest != [] && !IsAlnum(rest[0]) && AskedIfOpen(rest[1..])
  {
  }

  /** In a channel, a message that is the nick alone raises IndexError. */
  lemma ChannelNickAloneRaises(bot: LolOpenerIrcBot, source: string, target: string)
    requires IsChannel(target) && bot.nick.Some? && bot.nick.value != []
    ensures bot.ParseMessage(bot.nick.value, source, target) == Raise(IndexError)
  {
    assert StartsWith(bot.nick.value, bot.nick.value);
    assert !Contains([], bot.nick.value);
    assert bot.nick.value + [] == bot.nick.value;
    RemoveAllPrefix(bot.nick.value, []);
  }

  /** In a channel, the bot's nick unset makes `startswith(None)` raise TypeError. */
  lemma ChannelWithoutNickRaises(bot: LolOpenerIrcBot, message: string, source: string, target: string)
    requires IsChannel(target) && bot.nick.None?
    ensures bot.ParseMessage(message, source, target) == Raise(TypeError)
  {
  }

  /** "lolopener: ouvert ?" on #testlol to a bot named lolopener gets the announcement. */
  lemma ChannelExample(bot: LolOpenerIrcBot)
    requires bot.nick == Some("lolopener")
    ensures bot.ParseMessage("lolopener: ouvert ?", "someone", "#testlol") == Return(Some(Say(bot.OpenMessage())))
  {
    var nick, rest := "lolopener", ": ouvert ?";
    assert IsChannel("#testlol") by {
      assert "#testlol"[..1] == "#";
    }
    ExampleStripsNick();
    assert !IsAlnum(rest[0]);
    ExampleAsks();
  }

  /** A step of ChannelExample: the example message starts with the nick, and removing the nick leaves ": ouvert ?". */
  lemma ExampleStripsNick()
    ensures StartsWith("lolopener: ouvert ?", "lolopener")
    ensures RemoveAll("lolopener: ouvert ?", "lolopener") == ": ouvert ?"
  {
    var nick, rest := "lolopener", ": ouvert ?";
    var message := nick + rest;
    assert message == "lolopener: ouvert ?";
    assert message[..|nick|] == nick;
    assert !Contains(rest, nick) by {
      assert rest[..9][0] != 'l' && rest[1..][..9][0] != 'l';
      assert rest[1..][1..] == rest[2..];
      ShorterNeverContains(rest[2..], nick);
    }
    RemoveAllPrefix(nick, rest);
  }

  /** A step of ChannelExample: what follows the colon in the example asks if it is open. */
  lemma ExampleAsks()
    ensures AskedIfOpen(" ouvert ?")
  {
    var q := " ouvert ?";
    assert q[1..9] == "ouvert ?";
    assert OccursAt(q, "ouvert ?", 1);
    ContainsIffOccurs(q, "ouvert ?");
  }
}
