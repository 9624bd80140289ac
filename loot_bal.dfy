/** The `!LootBal <playerName>` command: the permission check, the shape of
    the message, the normalised player name, and the reply sent for each
    outcome of the balance query. */
module LootBal {
  import opened PythonStr
  import opened BalanceFormat
  import opened Roles

  /** What the command decides before it touches the database. */
  datatype Request = Unauthorized | BadUsage | Lookup(player: string)

  /** A name in `capitalize()` form: no lower-case letter first and no
      upper-case letter after it. */
  predicate Normalised(name: string) {
    && (|name| > 0 ==> !IsLowerLetter(name[0]))
    && (forall i :: 0 < i < |name| ==> !IsUpperLetter(name[i]))
  }

  /** `handle_loot_bal_command` up to the query: the permission check comes
      first; then the message must split into exactly two words; the second
      word, capitalised, is the player to look up. */
  function ParseLootBal(roles: seq<string>, content: string): (r: Request)
    ensures r.Unauthorized? <==> !MemberOrTrial(roles)
    ensures r.BadUsage? <==> MemberOrTrial(roles) && |SplitWhitespace(content)| != 2
    ensures r.Lookup? ==> |SplitWhitespace(content)| == 2
    ensures r.Lookup? ==> r.player != "" && Normalised(r.player)
    ensures r.Lookup? ==> Lower(r.player) == Lower(SplitWhitespace(content)[1])
  {
    if !MemberOrTrial(roles) then Unauthorized
    else
      var parts := SplitWhitespace(content);
      if |parts| != 2 then BadUsage
      else Lookup(Capitalize(parts[1]))
  }

  /** The name looked up is already in normal form: normalising it again
      changes nothing. */
  lemma LookupNameStable(roles: seq<string>, content: string)
    requires ParseLootBal(roles, content).Lookup?
    ensures Capitalize(ParseLootBal(roles, content).player) == ParseLootBal(roles, content).player
  {
    CapitalizeIdempotent(SplitWhitespace(content)[1]);
  }

  /** The case in which the player name is typed does not matter: messages
      whose second words agree up to case look up the same player, and
      messages whose second words differ otherwise look up different
      players. */
  lemma LookupIgnoresCase(roles: seq<string>, content: string, other: string)
    requires ParseLootBal(roles, content).Lookup? && ParseLootBal(roles, other).Lookup?
    ensures ParseLootBal(roles, content) == ParseLootBal(roles, other)
        <==> Lower(SplitWhitespace(content)[1]) == Lower(SplitWhitespace(other)[1])
  {
    CapitalizeIgnoresCase(SplitWhitespace(content)[1], SplitWhitespace(other)[1]);
  }

  /** A command word and a name, with any whitespace around and between
      them, look up the capitalised name. */
  lemma LookupInWhitespace(roles: seq<string>, before: string, command: string, between: string, name: string, after: string)
    requires MemberOrTrial(roles)
    requires AllSpace(before) && AllSpace(between) && AllSpace(after) && between != ""
    requires command != "" && NoSpace(command) && name != "" && NoSpace(name)
    ensures ParseLootBal(roles, before + command + between + name + after) == Lookup(Capitalize(name))
  {
    SplitTwoWords(before, command, between, name, after);
  }

  // ---------------------------------------------------------------------
  // The `!LootBal` command entry point
  // ---------------------------------------------------------------------

  /** `lootbal(ctx, playerName)`: the argument is put back behind the
      command word and handed to the message handler. A permitted author
      gets a lookup exactly when the argument is a single word, and a usage
      error otherwise. */
  function LootbalCommand(roles: seq<string>, playerName: string): (r: Request)
    ensures r.Unauthorized? <==> !MemberOrTrial(roles)
    ensures MemberOrTrial(roles) ==>
              r == if |SplitWhitespace(playerName)| == 1 then Lookup(Capitalize(SplitWhitespace(playerName)[0]))
                   else BadUsage
  {
    var words := SplitWhitespace(playerName);
    assert SplitWhitespace("!LootBal " + playerName) == ["!LootBal"] + words by {
      CommandWord(playerName);
      SplitAfterWord("!LootBal", playerName);
    }
    assert |["!LootBal"] + words| == 1 + |words|;
    assert |words| == 1 ==> (["!LootBal"] + words)[1] == words[0];
    ParseLootBal(roles, "!LootBal " + playerName)
  }

  lemma CommandWord(playerName: string)
    ensures NoSpace("!LootBal")
    ensures "!LootBal " + playerName == "!LootBal" + " " + playerName
  {
  }

  // ---------------------------------------------------------------------
  // The reply
  // ---------------------------------------------------------------------

  /** How the balance query ended: a row holding the sum, no row, or an
      exception carrying its message text. */
  datatype QueryOutcome = Row(total: Total) | NoRow | Failed(message: string)

  const PermissionDenied := "You do not have permission to use this command."
  const UsageHint := "Invalid command. Usage: !LootBal <playerName>"
  const NoResults := "No results found."
  const QueryErrorPrefix := "An error occurred while retrieving the balance: "

  function BalanceLine(player: string, total: Total): string {
    "Player " + player + " has a total amount of " + ReportedAmount(total)
  }

  /** The message the channel receives. `query` stands for the database:
      it maps the looked-up player to the outcome of summing their
      transactions. */
  function LootBalReply(roles: seq<string>, content: string, query: string -> QueryOutcome): (reply: string)
    ensures !MemberOrTrial(roles) ==> reply == PermissionDenied
    ensures MemberOrTrial(roles) && |SplitWhitespace(content)| != 2 ==> reply == UsageHint
    ensures ParseLootBal(roles, content).Lookup? ==>
              var player := ParseLootBal(roles, content).player;
              && (query(player).NoRow? ==> reply == NoResults)
              && (query(player).Failed? ==> reply == QueryErrorPrefix + query(player).message)
              && (query(player).Row? ==> reply == BalanceLine(player, query(player).total))
  {
    match ParseLootBal(roles, content)
    case Unauthorized => PermissionDenied
    case BadUsage => UsageHint
    case Lookup(player) =>
      match query(player)
      case Row(total) => BalanceLine(player, total)
      case NoRow => NoResults
      case Failed(message) => QueryErrorPrefix + message
  }

  /** A refused message never reaches the database: its reply is the same
      whatever the database holds. */
  lemma RefusedWithoutQuery(roles: seq<string>, content: string, query: string -> QueryOutcome, other: string -> QueryOutcome)
    requires !ParseLootBal(roles, content).Lookup?
    ensures LootBalReply(roles, content, query) == LootBalReply(roles, content, other)
    ensures LootBalReply(roles, content, query) in {PermissionDenied, UsageHint}
  {
  }

  /** An accepted message queries only the looked-up player: databases
      that agree on that player give the same reply. */
  lemma ReplyDependsOnPlayer(roles: seq<string>, content: string, query: string -> QueryOutcome, other: string -> QueryOutcome)
    requires ParseLootBal(roles, content).Lookup?
    requires query(ParseLootBal(roles, content).player) == other(ParseLootBal(roles, content).player)
    ensures LootBalReply(roles, content, query) == LootBalReply(roles, content, other)
  {
  }

  /** The reply to a row names the looked-up player and reports the sum:
      `-0-` exactly when the sum is zero or missing, and the hyphenated
      rendering of the sum otherwise. */
  lemma ReplyForRow(roles: seq<string>, content: string, query: string -> QueryOutcome)
    requires ParseLootBal(roles, content).Lookup?
    requires query(ParseLootBal(roles, content).player).Row?
    ensures var player := ParseLootBal(roles, content).player;
            var total := query(player).total;
            && LootBalReply(roles, content, query) == BalanceLine(player, total)
            && (LootBalReply(roles, content, query) == "Player " + player + " has a total amount of " + "-0-"
                <==> total.Null? || IsZero(total))
            && (!(total.Null? || IsZero(total)) ==>
                  LootBalReply(roles, content, query)
                  == "Player " + player + " has a total amount of " + FormatWithHyphens(total))
  {
    var player := ParseLootBal(roles, content).player;
    var total := query(player).total;
    var head := "Player " + player + " has a total amount of ";
    var amount := ReportedAmount(total);
    assert (head + amount)[|head|..] == amount;
    assert (head + "-0-")[|head|..] == "-0-";
  }

  lemma ExampleLookup(content: string)
    requires content == "!LootBal  bOB "
    ensures ParseLootBal(["Trial"], content) == Lookup("Bob")
  {
    assert MemberOrTrial(["Trial"]) by {
      assert Lower("Trial") == "trial";
    }
    ExampleLookupParts(content);
    LookupInWhitespace(["Trial"], "", "!LootBal", "  ", "bOB", " ");
  }

  lemma ExampleLookupParts(content: string)
    requires content == "!LootBal  bOB "
    ensures "" + "!LootBal" + "  " + "bOB" + " " == content
    ensures Capitalize("bOB") == "Bob"
    ensures AllSpace("") && AllSpace("  ") && AllSpace(" ")
    ensures NoSpace("!LootBal") && NoSpace("bOB")
  {
  }

  lemma ExampleRefused()
    ensures ParseLootBal(["guest"], "!LootBal Bob") == Unauthorized
  {
    assert Lower("guest") == "guest";
  }

  /** A quoted empty argument, `!LootBal ""`, is a usage error. */
  lemma ExampleMissingName()
    ensures LootbalCommand(["member"], "") == BadUsage
  {
    assert Lower("member") == "member";
    assert SplitWhitespace("") == [];
  }

  /** A quoted name of two words, as in `!LootBal "Bob Smith"`, is a usage
      error. */
  lemma TwoWordNameRefused(roles: seq<string>, first: string, last: string)
    requires MemberOrTrial(roles)
    requires first != "" && NoSpace(first) && last != "" && NoSpace(last)
    ensures LootbalCommand(roles, first + " " + last) == BadUsage
  {
    assert SplitWhitespace(first + " " + last) == [first, last] by {
      assert first + " " + last == first + (" " + last);
      SplitWhitespaceWord(first, " " + last);
      SplitWhitespaceSkipsSpace(" ", last);
      SplitWhitespaceWord(last, "");
      assert last + "" == last;
    }
  }

  // ---------------------------------------------------------------------
  // Who sent the command
  // ---------------------------------------------------------------------

  /** The author of a `!LootBal` message: a member of the server, whose
      role names are known, or a user writing in a direct message, who has
      no roles at all. */
  datatype Author = GuildMember(roles: seq<string>) | DirectUser

  const CommandErrorPrefix := "An error occurred: "
  const NoRolesMessage := "'User' object has no attribute 'roles'"

  /** The message `lootbal(ctx, playerName)` sends. The permission check
      reads the author's roles; a direct-message author has none, the check
      raises, and the command's own handler reports the error. A server
      member gets the handler's reply for the rebuilt message. */
  function CommandReply(author: Author, playerName: string, query: string -> QueryOutcome): (reply: string)
    ensures author.DirectUser? ==> reply == CommandErrorPrefix + NoRolesMessage
    ensures author.GuildMember? && !MemberOrTrial(author.roles) ==> reply == PermissionDenied
    ensures author.GuildMember? && MemberOrTrial(author.roles) && |SplitWhitespace(playerName)| != 1
            ==> reply == UsageHint
    ensures author.GuildMember? && MemberOrTrial(author.roles) && |SplitWhitespace(playerName)| == 1 ==>
              var player := Capitalize(SplitWhitespace(playerName)[0]);
              && (query(player).NoRow? ==> reply == NoResults)
              && (query(player).Failed? ==> reply == QueryErrorPrefix + query(player).message)
              && (query(player).Row? ==> reply == BalanceLine(player, query(player).total))
  {
    match author
    case DirectUser => CommandErrorPrefix + NoRolesMessage
    case GuildMember(roles) =>
      assert ParseLootBal(roles, "!LootBal " + playerName) == LootbalCommand(roles, playerName);
      LootBalReply(roles, "!LootBal " + playerName, query)
  }

  /** A direct-message author never reaches the database: the reply is the
      same whatever it holds, and it is none of the handler's replies. */
  lemma DirectUserNeverQueries(playerName: string, query: string -> QueryOutcome, other: string -> QueryOutcome)
    ensures CommandReply(DirectUser, playerName, query) == CommandReply(DirectUser, playerName, other)
    ensures CommandReply(DirectUser, playerName, query) !in {PermissionDenied, UsageHint, NoResults}
    ensures !(QueryErrorPrefix <= CommandReply(DirectUser, playerName, query))
    ensures forall player, total :: CommandReply(DirectUser, playerName, query) != BalanceLine(player, total)
  {
    var reply := CommandReply(DirectUser, playerName, query);
    forall player, total ensures reply != BalanceLine(player, total) {
      assert BalanceLine(player, total)[0] == 'P';
    }
    assert reply[3] == 'e' && PermissionDenied[3] == ' ' && UsageHint[3] == 'a' && NoResults[3] == 'r';
    assert reply[17] == ':' && QueryErrorPrefix[17] == ' ';
  }
}
