/**
 * The texts the infraction pardon command sends: the notice built by
 * `getInfractionMessage`, the mod-log description, and the three embeds.
 */
module InfractionNotices {
  import opened Text
  import opened Decimal

  /**
   * One kind of infraction. Only the attributes the pardon command reads are
   * kept; `name` identifies the kind (the note kind is named `NOTE`).
   */
  datatype InfractionType = InfractionType(name: string, actionText: string, relay: bool,
                                           notForTrainees: bool)

  predicate IsNote(t: InfractionType) {
    t.name == "NOTE"
  }

  /** A stored infraction record, with the fields the pardon command reads. */
  datatype Infraction = Infraction(id: string, targetId: int, reason: string,
                                   infractionType: InfractionType, active: bool)

  /** A chat user as the messages show them. */
  datatype User = User(id: int, mention: string, tag: string)

  const NoteLabel: string := "**Infraction Message:** "
  const ReasonLabel: string := "**Infraction Reason:** "

  /** The sentence a notice opens with, addressed to the channel or to the target. */
  function Opening(isPublic: bool, infraction: Infraction, t: InfractionType): string {
    if isPublic then "<@!" + IntToString(infraction.targetId) + "> is no longer " + t.actionText + "."
    else "You are no longer " + t.actionText + "."
  }

  /** The mention in a public notice identifies the member it is about. */
  lemma PublicOpeningNamesTarget(a: Infraction, b: Infraction, t: InfractionType)
    requires Opening(true, a, t) == Opening(true, b, t)
    ensures a.targetId == b.targetId
  {
    var ma, mb := IntToString(a.targetId), IntToString(b.targetId);
    var tail := "> is no longer " + t.actionText + ".";
    assert Opening(true, a, t) == "<@!" + ma + tail;
    assert Opening(true, b, t) == "<@!" + mb + tail;
    assert |ma| == |mb|;
    assert ma == Opening(true, a, t)[3..3 + |ma|];
    assert mb == Opening(true, b, t)[3..3 + |mb|];
    IntToStringInjective(a.targetId, b.targetId);
  }

  /** The reason line: notes carry a message, every other kind a reason. */
  function ReasonLine(t: InfractionType, reason: string): string {
    (if IsNote(t) then NoteLabel else ReasonLabel) + reason
  }

  /** A pardon notice: the opening, a blank line, and the reason line when asked for. */
  function InfractionMessage(isPublic: bool, infraction: Infraction, t: InfractionType,
                             showReason: bool): string
  {
    Opening(isPublic, infraction, t) + "\n\n"
    + (if showReason then ReasonLine(t, infraction.reason) else "")
  }

  /** Builds a notice by appending to a local variable, as the command does. */
  method GetInfractionMessage(isPublic: bool, infraction: Infraction, t: InfractionType,
                              showReason: bool) returns (message: string)
    ensures message == InfractionMessage(isPublic, infraction, t, showReason)
  {
    message := if isPublic then "<@!" + IntToString(infraction.targetId) + "> is no longer "
                                + t.actionText + "."
               else "You are no longer " + t.actionText + ".";
    message := message + "\n\n";
    if showReason {
      message := message + if IsNote(t) then NoteLabel + infraction.reason
                           else ReasonLabel + infraction.reason;
    }
  }

  /**
   * The public notice opens `<@!target> is no longer <action>.`, the private
   * one `You are no longer <action>.`, and both continue with a blank line.
   */
  lemma MessageOpening(isPublic: bool, infraction: Infraction, t: InfractionType, showReason: bool)
    ensures var m := InfractionMessage(isPublic, infraction, t, showReason);
      && (isPublic ==> StartsWith(m, "<@!" + IntToString(infraction.targetId) + "> is no longer "
                                     + t.actionText + ".\n\n"))
      && (!isPublic ==> StartsWith(m, "You are no longer " + t.actionText + ".\n\n"))
  {
    var head := Opening(isPublic, infraction, t) + "\n\n";
    var tail := if showReason then ReasonLine(t, infraction.reason) else "";
    ThreePieces(head, tail, "");
    assert InfractionMessage(isPublic, infraction, t, showReason) == head + tail + "";
  }

  /**
   * The reason line is there exactly when asked for; it is all that follows
   * the blank line, and it is labelled "Infraction Message" exactly for notes.
   */
  lemma MessageReason(isPublic: bool, infraction: Infraction, t: InfractionType, showReason: bool)
    ensures var m := InfractionMessage(isPublic, infraction, t, showReason);
      var head := Opening(isPublic, infraction, t) + "\n\n";
      && |m| >= |head|
      && (showReason <==> |m| > |head|)
      && (showReason ==> m[|head|..] == ReasonLine(t, infraction.reason))
      && (showReason ==> (StartsWith(m[|head|..], NoteLabel) <==> IsNote(t)))
  {
    var head := Opening(isPublic, infraction, t) + "\n\n";
    var m := InfractionMessage(isPublic, infraction, t, showReason);
    if showReason {
      var line := ReasonLine(t, infraction.reason);
      ThreePieces(head, line, "");
      assert m == head + line + "";
      if IsNote(t) {
        ThreePieces(NoteLabel, infraction.reason, "");
        assert line == NoteLabel + infraction.reason + "";
      } else {
        assert line[13] == ReasonLabel[13] == 'R' != NoteLabel[13];
        if |line| >= |NoteLabel| {
          assert line[..|NoteLabel|][13] == line[13];
        }
      }
    }
  }

  /** The "User ID" line of a mod-log entry. */
  function UserIdLine(infraction: Infraction): string {
    "\n\n**User ID:** `" + IntToString(infraction.targetId) + "`"
  }

  /** The "Moderator" line of a mod-log entry. */
  function ModeratorLine(actor: User): string {
    "\n**Moderator:** " + actor.mention + " (" + actor.tag + " / `" + IntToString(actor.id) + "`)"
  }

  /** The mod-log description: the public notice with its reason, the target's id, the moderator. */
  function ModLogText(infraction: Infraction, t: InfractionType, actor: User): string {
    InfractionMessage(true, infraction, t, true) + UserIdLine(infraction) + ModeratorLine(actor)
  }

  /** Builds the mod-log description by appending to the public notice, as the command does. */
  method ModLogDescription(infraction: Infraction, t: InfractionType, actor: User)
    returns (descriptionText: string)
    ensures descriptionText == ModLogText(infraction, t, actor)
  {
    descriptionText := GetInfractionMessage(true, infraction, t, true);
    descriptionText := descriptionText + ("\n\n**User ID:** `" + IntToString(infraction.targetId) + "`");
    descriptionText := descriptionText
      + ("\n**Moderator:** " + actor.mention + " (" + actor.tag + " / `" + IntToString(actor.id) + "`)");
  }

  /**
   * The mod-log description is the public notice with its reason, then the
   * User ID line, then the Moderator line, and nothing else.
   */
  lemma ModLogLayout(infraction: Infraction, t: InfractionType, actor: User)
    ensures var d := ModLogText(infraction, t, actor);
      var notice := InfractionMessage(true, infraction, t, true);
      && StartsWith(d, notice)
      && StartsWith(d[|notice|..], UserIdLine(infraction))
      && d[|notice| + |UserIdLine(infraction)|..] == ModeratorLine(actor)
  {
    var notice := InfractionMessage(true, infraction, t, true);
    var d := ModLogText(infraction, t, actor);
    ThreePieces(notice, UserIdLine(infraction), ModeratorLine(actor));
    ThreePieces(UserIdLine(infraction), ModeratorLine(actor), "");
    assert d[|notice|..] == UserIdLine(infraction) + ModeratorLine(actor) + "";
    assert d[|notice| + |UserIdLine(infraction)|..] == d[|notice|..][|UserIdLine(infraction)|..];
  }

  /** An embed as the command fills it in; colours and timestamps are left out. */
  datatype Embed = Embed(title: string, description: string, footer: string)

  /** The direct message to the target: the private notice with its reason. */
  function UserEmbed(t: InfractionType, infraction: Infraction): Embed {
    Embed(Capitalize(t.actionText) + "!", InfractionMessage(false, infraction, t, true),
          "Infraction ID: " + infraction.id)
  }

  /** The acknowledgement in the invoking channel: the public notice without the reason. */
  function ChannelEmbed(t: InfractionType, infraction: Infraction): Embed {
    Embed("Infraction pardoned", InfractionMessage(true, infraction, t, false), "ID: " + infraction.id)
  }

  /** The moderation-log entry. */
  function ModLogEmbed(t: InfractionType, infraction: Infraction, actor: User): Embed {
    Embed("Infraction Pardoned", ModLogText(infraction, t, actor), "ID: " + infraction.id)
  }

  /** The channel acknowledgement never shows the reason; the target and the mod log always do. */
  lemma ReasonVisibility(t: InfractionType, infraction: Infraction, actor: User)
    ensures ChannelEmbed(t, infraction).description
      == Opening(true, infraction, t) + "\n\n"
    ensures EndsWith(UserEmbed(t, infraction).description, ReasonLine(t, infraction.reason))
    ensures StartsWith(ModLogEmbed(t, infraction, actor).description,
                       Opening(true, infraction, t) + "\n\n" + ReasonLine(t, infraction.reason))
  {
    var line := ReasonLine(t, infraction.reason);
    ThreePieces(Opening(false, infraction, t) + "\n\n", "", line);
    assert UserEmbed(t, infraction).description == Opening(false, infraction, t) + "\n\n" + "" + line;
    ModLogLayout(infraction, t, actor);
  }

  /** The role a moderator's top role must reach to use a pardon command. */
  datatype Role = Moderator | TraineeModerator

  function RequiredRole(t: InfractionType): Role {
    if t.notForTrainees then Moderator else TraineeModerator
  }

  /** The role the command requires is the trainee role exactly for the kinds not reserved for moderators. */
  lemma TraineeGate(t: InfractionType)
    ensures RequiredRole(t) == TraineeModerator <==> !t.notForTrainees
  {
  }
}
