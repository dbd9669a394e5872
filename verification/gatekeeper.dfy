/**
  The role gatekeeper: members list the guild's opt-in roles (those whose name starts
  with ':') and give or take one of them themselves. The guild's roles and the member's
  roles, as the client reports them, are inputs; what the command does through the
  client comes back as a sequence of effects in the order they happen.
*/
module Gatekeeper {
  import opened Wrappers
  import opened Util

  /** A guild role as the client lists it. */
  datatype Role = Role(id: string, name: string)

  /** One call the command makes through the client. */
  datatype Effect = Send(text: string) | AddRole(roleID: string) | RemoveRole(roleID: string)

  datatype Verb = Give | Take

  const UnknownCommand := "Unknown command. Usage: `!role [give|take] [Role Name]`"
  const NoRolesText := "It doesn't look like any opt-in roles are available D:"
  const ListingHeader := "Available roles are: "

  const GiveAliases: set<string> := {"give", "g", "gib"}
  const TakeAliases: set<string> := {"take", "t", "tak"}

  /* === The table of requestable roles === */

  /** An opt-in role: its name starts with ':'. */
  predicate IsRequestable(r: Role) {
    |r.name| > 0 && r.name[0] == ':'
  }

  /** The name shown to members: the role's name without the ':'. */
  function PrintName(r: Role): string
    requires IsRequestable(r)
  {
    r.name[1..]
  }

  /** The name members request the role by: the shown name, lower-cased. */
  function RoleKey(r: Role): string
    requires IsRequestable(r)
  {
    ToLower(PrintName(r))
  }

  /** The requestable-role table after the roles have been entered in guild order; a later role overwrites an earlier one with the same key. */
  function Table(roles: seq<Role>): map<string, string> {
    if roles == [] then map[]
    else
      var last := roles[|roles| - 1];
      var table := Table(roles[..|roles| - 1]);
      if IsRequestable(last) then table[RoleKey(last) := last.id] else table
  }

  /** The shown names of the requestable roles, in guild order. */
  function PrintNames(roles: seq<Role>): seq<string> {
    if roles == [] then []
    else
      var last := roles[|roles| - 1];
      var names := PrintNames(roles[..|roles| - 1]);
      if IsRequestable(last) then names + [PrintName(last)] else names
  }

  predicate HasRequestable(roles: seq<Role>) {
    exists i :: 0 <= i < |roles| && IsRequestable(roles[i])
  }

  /** A key is in the table exactly when some opt-in role of the guild has it. */
  lemma {:induction false} TableKeys(roles: seq<Role>, key: string)
    ensures key in Table(roles) <==>
            exists i :: 0 <= i < |roles| && IsRequestable(roles[i]) && RoleKey(roles[i]) == key
  {
    if roles != [] {
      var front := roles[..|roles| - 1];
      TableKeys(front, key);
      assert forall i :: 0 <= i < |front| ==> front[i] == roles[i];
    }
  }

  /** A key maps to the ID of the last opt-in role in guild order that has that key. */
  lemma {:induction false} TableValue(roles: seq<Role>, i: nat)
    requires i < |roles| && IsRequestable(roles[i])
    requires forall j :: i < j < |roles| && IsRequestable(roles[j]) ==> RoleKey(roles[j]) != RoleKey(roles[i])
    ensures RoleKey(roles[i]) in Table(roles) && Table(roles)[RoleKey(roles[i])] == roles[i].id
  {
    var front := roles[..|roles| - 1];
    if i < |roles| - 1 {
      assert forall j :: i < j < |front| ==> front[j] == roles[j];
      TableValue(front, i);
    }
  }

  /** The table has an entry exactly when the guild has an opt-in role. */
  lemma TableNonEmpty(roles: seq<Role>)
    ensures |Table(roles)| >= 1 <==> HasRequestable(roles)
  {
    if HasRequestable(roles) {
      var i :| 0 <= i < |roles| && IsRequestable(roles[i]);
      TableKeys(roles, RoleKey(roles[i]));
    } else if |Table(roles)| >= 1 {
      var key :| key in Table(roles);
      TableKeys(roles, key);
    }
  }

  /** What the listing shows and what can be requested agree: a key is in the table exactly when it is a shown name, lower-cased. */
  lemma {:induction false} ListedNamesAreKeys(roles: seq<Role>, key: string)
    ensures key in Table(roles) <==> exists n :: n in PrintNames(roles) && ToLower(n) == key
  {
    if roles != [] {
      var front := roles[..|roles| - 1];
      ListedNamesAreKeys(front, key);
      var last := roles[|roles| - 1];
      if !IsRequestable(last) {
        assert Table(roles) == Table(front) && PrintNames(roles) == PrintNames(front);
      } else {
        assert Table(roles) == Table(front)[RoleKey(last) := last.id];
        var names := PrintNames(front);
        assert PrintNames(roles) == names + [PrintName(last)];
        if key == RoleKey(last) {
          assert PrintName(last) in PrintNames(roles);
        } else if exists n :: n in names && ToLower(n) == key {
          var n :| n in names && ToLower(n) == key;
          assert n in PrintNames(roles);
        }
      }
    }
  }

  /** The table as the source's first loop builds it, together with the shown names. */
  method BuildRequestable(roles: seq<Role>) returns (table: map<string, string>, names: seq<string>)
    ensures table == Table(roles) && names == PrintNames(roles)
  {
    table, names := map[], [];
    for i := 0 to |roles|
      invariant table == Table(roles[..i]) && names == PrintNames(roles[..i])
    {
      var r := roles[i];
      assert roles[..i + 1][..i] == roles[..i];
      if |r.name| > 0 && r.name[0] == ':' {
        table := table[ToLower(r.name[1..]) := r.id];
        names := names + [r.name[1..]];
      }
    }
    assert roles[..|roles|] == roles;
  }

  /* === The listing === */

  /** One line of the listing. */
  function ListingLine(name: string): string {
    "\n- `" + name + "`"
  }

  function ListingLines(names: seq<string>): string {
    if names == [] then ""
    else ListingLines(names[..|names| - 1]) + ListingLine(names[|names| - 1])
  }

  /** The reply to a bare command when opt-in roles exist. */
  function Listing(names: seq<string>): string {
    ListingHeader + ListingLines(names)
  }

  /** The lines of the first names are where the lines of all names begin. */
  lemma {:induction false} ListingLinesPrefix(names: seq<string>, k: nat)
    requires k <= |names|
    ensures ListingLines(names[..k]) <= ListingLines(names)
  {
    if k < |names| {
      var front := names[..|names| - 1];
      assert front[..k] == names[..k];
      ListingLinesPrefix(front, k);
    } else {
      assert names[..k] == names;
    }
  }

  /** Every shown name has its own line in the listing, in order: the `i`-th line starts where the lines of the names before it end. */
  lemma ListingShowsEach(names: seq<string>, i: nat)
    requires i < |names|
    ensures var at := |ListingHeader| + |ListingLines(names[..i])|;
            at + |ListingLine(names[i])| <= |Listing(names)|
            && Listing(names)[at..at + |ListingLine(names[i])|] == ListingLine(names[i])
  {
    ListingLinesPrefix(names, i + 1);
    assert names[..i + 1][..i] == names[..i];
    var lines := ListingLines(names[..i + 1]);
    assert lines == ListingLines(names[..i]) + ListingLine(names[i]);
    var at := |ListingLines(names[..i])|;
    assert ListingLines(names)[at..at + |ListingLine(names[i])|] == ListingLine(names[i]);
  }

  /** The listing as the source's second loop writes it into a builder. */
  method BuildListing(names: seq<string>) returns (msg: string)
    ensures msg == Listing(names)
  {
    msg := ListingHeader;
    for i := 0 to |names|
      invariant msg == Listing(names[..i])
    {
      assert names[..i + 1][..i] == names[..i];
      msg := msg + "\n- `" + names[i] + "`";
    }
    assert names[..|names|] == names;
  }

  /* === Give and take === */

  /** The verb: `give`, `g`, `gib` or `take`, `t`, `tak`, in any case. */
  function ParseVerb(arg: string): (r: Option<Verb>)
    ensures r == Some(Give) <==> ToLower(arg) in {"give", "g", "gib"}
    ensures r == Some(Take) <==> ToLower(arg) in {"take", "t", "tak"}
    ensures r.None? <==> ToLower(arg) !in {"give", "g", "gib", "take", "t", "tak"}
  {
    var verb := ToLower(arg);
    if verb in GiveAliases then Some(Give)
    else if verb in TakeAliases then Some(Take)
    else None
  }

  /** The verb is read without regard to case. */
  lemma ParseVerbIgnoresCase(arg: string)
    ensures ParseVerb(ToLower(arg)) == ParseVerb(arg)
  {
    ToLowerIdempotent(arg);
  }

  function AlreadyHaveText(mention: string): string {
    "You appear to already have that role, " + mention
  }

  function GivenText(req: string, mention: string): string {
    "You have been given role `" + req + "`, " + mention
  }

  function DontHaveText(mention: string): string {
    "You don't have that role... How do you expect me to take it, " + mention + "?"
  }

  function TakingText(req: string, mention: string): string {
    "Taking role `" + req + "` away, " + mention
  }

  /** The member's role IDs as a set. */
  function Held(memberRoles: seq<string>): set<string> {
    set r | r in memberRoles
  }

  /** The member's roles once the role changes among `effects` have been applied. */
  function RolesAfter(held: set<string>, effects: seq<Effect>): set<string>
    decreases |effects|
  {
    if effects == [] then held
    else
      var next := match effects[0]
        case Send(_) => held
        case AddRole(id) => held + {id}
        case RemoveRole(id) => held - {id};
      RolesAfter(next, effects[1..])
  }

  /** A request with a known verb and a role name. */
  predicate IsRequest(arguments: seq<string>) {
    |arguments| >= 2 && ParseVerb(arguments[0]).Some?
  }

  /**
    `Handle`: `guildRoles` is what the client answers for the guild's roles, `memberRoles`
    the IDs of the member's roles, `mention` the member's mention text.
  */
  method Handle(guildRoles: Result<seq<Role>>, arguments: seq<string>, memberRoles: seq<string>, mention: string)
    returns (effects: seq<Effect>)
    // Failing to read the guild's roles is only logged.
    ensures guildRoles.Failure? ==> effects == []
    // Without arguments: the listing, or the notice that there are no opt-in roles.
    ensures guildRoles.Success? && |arguments| == 0 ==>
              effects == [Send(if HasRequestable(guildRoles.value) then Listing(PrintNames(guildRoles.value))
                               else NoRolesText)]
    // An unknown verb, or a verb without a role name, gets the usage text.
    ensures guildRoles.Success? && |arguments| != 0 && !IsRequest(arguments) ==>
              effects == [Send(UnknownCommand)]
    // A role name that no opt-in role has is reported, lower-cased.
    ensures guildRoles.Success? && IsRequest(arguments)
            && ToLower(arguments[1]) !in Table(guildRoles.value) ==>
              effects == [Send("Unable to find role `" + ToLower(arguments[1]) + "`")]
    // A known role: the member ends up holding it after give and not holding it after take,
    // a change is made only when needed, and a reply always follows.
    ensures guildRoles.Success? && IsRequest(arguments)
            && ToLower(arguments[1]) in Table(guildRoles.value) ==>
              var req := ToLower(arguments[1]);
              var id := Table(guildRoles.value)[req];
              var give := ParseVerb(arguments[0]) == Some(Give);
              && RolesAfter(Held(memberRoles), effects)
                 == (if give then Held(memberRoles) + {id} else Held(memberRoles) - {id})
              && (give && id in memberRoles ==> effects == [Send(AlreadyHaveText(mention))])
              && (give && id !in memberRoles ==> effects == [AddRole(id), Send(GivenText(req, mention))])
              && (!give && id !in memberRoles ==> effects == [Send(DontHaveText(mention))])
              && (!give && id in memberRoles ==> effects == [RemoveRole(id), Send(TakingText(req, mention))])
    // At most one role change, never both kinds, and it comes before the single reply.
    ensures |effects| <= 2 && (|effects| == 2 ==> !effects[0].Send?)
    ensures effects != [] ==> effects[|effects| - 1].Send?
  {
    if guildRoles.Failure? {
      return [];
    }
    var roles := guildRoles.value;
    var requestableRoles, printNames := BuildRequestable(roles);

    if |arguments| == 0 {
      TableNonEmpty(roles);
      if |requestableRoles| >= 1 {
        var msg := BuildListing(printNames);
        return [Send(msg)];
      }
      return [Send(NoRolesText)];
    }

    var give: bool;
    var verb := ToLower(arguments[0]);
    if verb in GiveAliases {
      give := true;
    } else if verb in TakeAliases {
      give := false;
    } else {
      return [Send(UnknownCommand)];
    }

    if |arguments| < 2 {
      return [Send(UnknownCommand)];
    }

    var req := ToLower(arguments[1]);
    if req !in requestableRoles {
      return [Send("Unable to find role `" + req + "`")];
    }
    var roleID := requestableRoles[req];

    effects := GiveOrTake(give, req, roleID, memberRoles, mention);
  }

  /** The end of `Handle` once the role is known: change the member's roles only if needed, then reply. */
  method GiveOrTake(give: bool, req: string, roleID: string, memberRoles: seq<string>, mention: string)
    returns (effects: seq<Effect>)
    ensures RolesAfter(Held(memberRoles), effects)
            == (if give then Held(memberRoles) + {roleID} else Held(memberRoles) - {roleID})
    ensures give && roleID in memberRoles ==> effects == [Send(AlreadyHaveText(mention))]
    ensures give && roleID !in memberRoles ==> effects == [AddRole(roleID), Send(GivenText(req, mention))]
    ensures !give && roleID !in memberRoles ==> effects == [Send(DontHaveText(mention))]
    ensures !give && roleID in memberRoles ==> effects == [RemoveRole(roleID), Send(TakingText(req, mention))]
  {
    var hasRole := ArrayContains(memberRoles, roleID, false);
    ContainsExactIsMembership(memberRoles, roleID);

    ghost var held := Held(memberRoles);
    assert hasRole <==> roleID in held;
    if give {
      if hasRole {
        effects := [Send(AlreadyHaveText(mention))];
        assert RolesAfter(held, effects) == held == held + {roleID};
      } else {
        effects := [AddRole(roleID), Send(GivenText(req, mention))];
        assert RolesAfter(held, effects) == RolesAfter(held + {roleID}, effects[1..]) == held + {roleID};
      }
    } else if !hasRole {
      effects := [Send(DontHaveText(mention))];
      assert RolesAfter(held, effects) == held == held - {roleID};
    } else {
      effects := [RemoveRole(roleID), Send(TakingText(req, mention))];
      assert RolesAfter(held, effects) == RolesAfter(held - {roleID}, effects[1..]) == held - {roleID};
    }
  }

  /* === Help text === */

  /** `s` contains `w`. */
  predicate Occurs(w: string, s: string) {
    exists i :: 0 <= i <= |s| && w <= s[i..]
  }

  /** Three words placed between four pieces of text all occur in it. */
  lemma OccursThrice(p0: string, w1: string, p1: string, w2: string, p2: string, w3: string, p3: string)
    ensures var s := p0 + w1 + p1 + w2 + p2 + w3 + p3;
            Occurs(w1, s) && Occurs(w2, s) && Occurs(w3, s)
  {
    var s := p0 + w1 + p1 + w2 + p2 + w3 + p3;
    assert s == p0 + w1 + (p1 + w2 + p2 + w3 + p3);
    assert w1 <= s[|p0|..];
    assert s == (p0 + w1 + p1) + w2 + (p2 + w3 + p3);
    assert w2 <= s[|p0 + w1 + p1|..];
    assert s == (p0 + w1 + p1 + w2 + p2) + w3 + p3;
    assert w3 <= s[|p0 + w1 + p1 + w2 + p2|..];
  }

  /** `HandleHelp`: the help reply names the command three ways: listing, giving and taking. */
  function HelpText(command: string): (r: string)
    ensures Occurs("`!" + command + "`", r)
    ensures Occurs("`!" + command + " give [opt-in name]`", r)
    ensures Occurs("`!" + command + " take [opt-in name]`", r)
  {
    OccursThrice(HelpIntro, "`!" + command + "`", HelpJoin, "`!" + command + " give [opt-in name]`",
                 HelpLeave, "`!" + command + " take [opt-in name]`", " command.");
    HelpIntro + ("`!" + command + "`") + HelpJoin + ("`!" + command + " give [opt-in name]`")
    + HelpLeave + ("`!" + command + " take [opt-in name]`") + " command."
  }

  const HelpIntro := "This server has a number of opt-in roles common interests.\n\n"
                     + "To see a list of all available roles, use the "
  const HelpJoin := " command. To join an opt-in, use the "
  const HelpLeave := " command. To leave, use the "

}
