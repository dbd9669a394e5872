/**
  The helpers of the bot's `util` package that the commands rely on: case folding,
  string-array membership, message links, and the recognisers for Discord IDs
  (eighteen decimal digits) and for bot, user and channel mentions.
*/
module Util {
  import opened Wrappers

  /* === Case folding === */

  predicate IsUpper(c: char) {
    'A' <= c <= 'Z'
  }

  /** One character of `strings.ToLower`, restricted to ASCII letters. */
  function LowerChar(c: char): char {
    if IsUpper(c) then (c as int + 32) as char else c
  }

  /** `strings.ToLower` on ASCII text, one character at a time. */
  function ToLower(s: string): (r: string)
    ensures |r| == |s|
    ensures forall i :: 0 <= i < |s| ==> r[i] == LowerChar(s[i])
  {
    if s == [] then [] else [LowerChar(s[0])] + ToLower(s[1..])
  }

  /** Lower-cased text holds no upper-case letter. */
  lemma ToLowerHasNoUpper(s: string)
    ensures forall i :: 0 <= i < |s| ==> !IsUpper(ToLower(s)[i])
  {
  }

  /** Lower-casing twice is lower-casing once. */
  lemma ToLowerIdempotent(s: string)
    ensures ToLower(ToLower(s)) == ToLower(s)
  {
  }

  /* === ArrayContains === */

  /** An element as `ArrayContains` compares it: lower-cased when case is ignored. */
  function Folded(e: string, ignoreCase: bool): string {
    if ignoreCase then ToLower(e) else e
  }

  /** Some element of `items`, folded, equals `value`; `value` itself is never folded. */
  predicate Contains(items: seq<string>, value: string, ignoreCase: bool) {
    exists i :: 0 <= i < |items| && Folded(items[i], ignoreCase) == value
  }

  /** The linear scan of `ArrayContains`, returning at the first equal element. */
  method ArrayContains(items: seq<string>, value: string, ignoreCase: bool) returns (found: bool)
    ensures found == Contains(items, value, ignoreCase)
  {
    for i := 0 to |items|
      invariant forall j :: 0 <= j < i ==> Folded(items[j], ignoreCase) != value
    {
      var e := items[i];
      if ignoreCase {
        e := ToLower(e);
      }
      if e == value {
        return true;
      }
    }
    return false;
  }

  /** With case respected, `Contains` is plain sequence membership; nothing is in the empty array. */
  lemma ContainsExactIsMembership(items: seq<string>, value: string)
    ensures Contains(items, value, false) <==> value in items
    ensures !Contains([], value, false) && !Contains([], value, true)
  {
    if value in items {
      var i :| 0 <= i < |items| && items[i] == value;
      assert Folded(items[i], false) == value;
    }
  }

  /** Because only the elements are folded, a value holding an upper-case letter is never found when case is ignored. */
  lemma UpperValueNeverFound(items: seq<string>, value: string, k: nat)
    requires k < |value| && IsUpper(value[k])
    ensures !Contains(items, value, true)
  {
    forall i | 0 <= i < |items|
      ensures Folded(items[i], true) != value
    {
      ToLowerHasNoUpper(items[i]);
      if k < |items[i]| {
        assert !IsUpper(ToLower(items[i])[k]);
      }
    }
  }

  /* === Message links === */

  const ChannelsBase := "https://discordapp.com/channels/"

  /** The link to a message: the base, then guild, channel and message IDs separated by '/'. */
  function GetMsgURL(guildID: string, channelID: string, messageID: string): (r: string)
    ensures |r| == |ChannelsBase| + |guildID| + |channelID| + |messageID| + 2
    ensures r[..|ChannelsBase|] == ChannelsBase
  {
    ChannelsBase + guildID + "/" + channelID + "/" + messageID
  }

  /** Position of the first `c` in `s`, if any. */
  function IndexOf(s: string, c: char): (r: Option<nat>)
    ensures r.Some? ==> r.value < |s| && s[r.value] == c && c !in s[..r.value]
    ensures r.None? ==> c !in s
  {
    if s == [] then None
    else if s[0] == c then Some(0)
    else match IndexOf(s[1..], c)
      case None => None
      case Some(i) => Some(i + 1)
  }

  /** Reads guild, channel and message IDs back out of a message link. */
  function ParseMsgURL(url: string): Option<(string, string, string)> {
    if |url| < |ChannelsBase| || url[..|ChannelsBase|] != ChannelsBase then None
    else
      var rest := url[|ChannelsBase|..];
      match IndexOf(rest, '/')
      case None => None
      case Some(i) =>
        var tail := rest[i + 1..];
        match IndexOf(tail, '/')
        case None => None
        case Some(j) => Some((rest[..i], tail[..j], tail[j + 1..]))
  }

  lemma {:induction false} IndexOfSeparator(a: string, b: string)
    requires '/' !in a
    ensures IndexOf(a + "/" + b, '/') == Some(|a|)
  {
    if a != [] {
      assert (a + "/" + b)[1..] == a[1..] + "/" + b;
      IndexOfSeparator(a[1..], b);
    }
  }

  /** A message link determines its IDs, provided the guild and channel IDs hold no '/'. */
  lemma MsgURLRoundTrip(guildID: string, channelID: string, messageID: string)
    requires '/' !in guildID && '/' !in channelID
    ensures ParseMsgURL(GetMsgURL(guildID, channelID, messageID)) == Some((guildID, channelID, messageID))
  {
    var url := GetMsgURL(guildID, channelID, messageID);
    var rest := guildID + "/" + (channelID + "/" + messageID);
    assert url[|ChannelsBase|..] == rest;
    IndexOfSeparator(guildID, channelID + "/" + messageID);
    var tail := rest[|guildID| + 1..];
    assert tail == channelID + "/" + messageID;
    IndexOfSeparator(channelID, messageID);
    assert rest[..|guildID|] == guildID;
    assert tail[..|channelID|] == channelID;
    assert tail[|channelID| + 1..] == messageID;
  }

  /* === Discord IDs and mentions === */

  /** A Discord ID is eighteen digits (`\d{18}`). */
  const IdLength := 18

  /** `\d` in Go's regexp syntax: an ASCII digit. */
  predicate IsDigit(c: char) {
    '0' <= c <= '9'
  }

  /** An ID begins at position `p` of `s`. */
  predicate IdAt(s: string, p: nat) {
    p + IdLength <= |s| && forall i :: p <= i < p + IdLength ==> IsDigit(s[i])
  }

  /** `^\d{18}`: the text begins with an ID; what follows it is not looked at. */
  function IsID(test: string): (r: bool)
    ensures r <==> |test| >= 18 && forall i :: 0 <= i < 18 ==> '0' <= test[i] <= '9'
  {
    IdAt(test, 0)
  }

  /** The leftmost position at or after `from` where an ID begins. */
  function FirstIdFrom(s: string, from: nat): (r: Option<nat>)
    decreases |s| - from
    ensures r.Some? ==> from <= r.value && IdAt(s, r.value)
    ensures r.Some? ==> forall q :: from <= q < r.value ==> !IdAt(s, q)
    ensures r.None? ==> forall q: nat :: from <= q ==> !IdAt(s, q)
  {
    if from + IdLength > |s| then None
    else if IdAt(s, from) then Some(from)
    else FirstIdFrom(s, from + 1)
  }

  /** `\d{18}` found leftmost: the first run of eighteen digits, or "" when there is none. */
  function GetID(input: string): (r: string)
    ensures r == "" <==> forall q: nat :: !IdAt(input, q)
    ensures r != "" ==> exists p: nat :: IdAt(input, p) && r == input[p..p + IdLength]
                                         && forall q :: 0 <= q < p ==> !IdAt(input, q)
  {
    match FirstIdFrom(input, 0)
    case None => ""
    case Some(p) => input[p..p + IdLength]
  }

  /** Text that passes `IsID` yields its first eighteen characters as its ID. */
  lemma IsIDThenGetID(s: string)
    requires IsID(s)
    ensures GetID(s) == s[..IdLength]
  {
    assert FirstIdFrom(s, 0) == Some(0);
  }

  /** `IsID` is anchored only at the start: anything may follow the digits. */
  lemma IsIDIgnoresSuffix(s: string, t: string)
    requires IsID(s)
    ensures IsID(s + t) && GetID(s + t) == s[..IdLength]
  {
    assert forall i :: 0 <= i < IdLength ==> (s + t)[i] == s[i];
    IsIDThenGetID(s + t);
    assert (s + t)[..IdLength] == s[..IdLength];
  }

  /** `open`, an ID and '>' begin at position `p` of `s`. */
  predicate MentionAt(s: string, p: nat, open: string) {
    var q := p + |open|;
    q + IdLength < |s| && s[p..q] == open && IdAt(s, q) && s[q + IdLength] == '>'
  }

  function MentionFrom(s: string, from: nat, open: string): (r: bool)
    decreases |s| - from
    ensures r <==> exists p: nat :: from <= p && MentionAt(s, p, open)
  {
    if from >= |s| then false
    else MentionAt(s, from, open) || MentionFrom(s, from + 1, open)
  }

  /** `<@&\d{18}>` anywhere in the text: a role mention. */
  function IsBot(test: string): (r: bool)
    ensures r <==> exists p: nat :: MentionAt(test, p, "<@&")
  {
    MentionFrom(test, 0, "<@&")
  }

  /** `<#\d{18}>` anywhere in the text: a channel mention. */
  function IsChannel(test: string): (r: bool)
    ensures r <==> exists p: nat :: MentionAt(test, p, "<#")
  {
    MentionFrom(test, 0, "<#")
  }

  /** `<@`, then `bangs` copies of '!', then an ID and '>' begin at position `p`. */
  predicate UserMentionAt(s: string, p: nat, bangs: nat) {
    var q := p + 2 + bangs;
    q + IdLength < |s| && s[p] == '<' && s[p + 1] == '@'
    && (forall i :: p + 2 <= i < q ==> s[i] == '!')
    && IdAt(s, q) && s[q + IdLength] == '>'
  }

  /** The end of the run of '!' that starts at `i`. */
  function SkipBangs(s: string, i: nat): (j: nat)
    requires i <= |s|
    decreases |s| - i
    ensures i <= j <= |s| && (j == |s| || s[j] != '!')
    ensures forall k :: i <= k < j ==> s[k] == '!'
  {
    if i < |s| && s[i] == '!' then SkipBangs(s, i + 1) else i
  }

  /** `<@!*\d{18}>` matched at `p`, taking all the '!' that follow `<@`. */
  predicate GreedyUserMentionAt(s: string, p: nat) {
    p + 2 <= |s| && s[p] == '<' && s[p + 1] == '@'
    && var q := SkipBangs(s, p + 2);
       q + IdLength < |s| && IdAt(s, q) && s[q + IdLength] == '>'
  }

  /** Since an ID starts with a digit, a user mention has exactly as many '!' as the run after `<@`. */
  lemma BangsAreTheRun(s: string, p: nat, bangs: nat)
    requires UserMentionAt(s, p, bangs)
    ensures SkipBangs(s, p + 2) == p + 2 + bangs
  {
    var j := SkipBangs(s, p + 2);
    var q := p + 2 + bangs;
    assert IsDigit(s[q]);
  }

  function UserMentionFrom(s: string, from: nat): (r: bool)
    decreases |s| - from
    ensures r <==> exists p: nat, bangs: nat :: from <= p && UserMentionAt(s, p, bangs)
  {
    if from >= |s| then false
    else
      var here := GreedyUserMentionAt(s, from);
      var later := UserMentionFrom(s, from + 1);
      if here then
        assert UserMentionAt(s, from, SkipBangs(s, from + 2) - (from + 2));
        true
      else
        NoUserMentionAt(s, from);
        later
  }

  /** Where the greedy reading fails, no number of '!' gives a user mention. */
  lemma NoUserMentionAt(s: string, p: nat)
    requires !GreedyUserMentionAt(s, p)
    ensures forall bangs: nat :: !UserMentionAt(s, p, bangs)
  {
    forall bangs: nat | UserMentionAt(s, p, bangs)
      ensures false
    {
      BangsAreTheRun(s, p, bangs);
    }
  }

  /** `<@!*\d{18}>` anywhere in the text: a user mention, with any number of '!'. */
  function IsUser(test: string): (r: bool)
    ensures r <==> exists p: nat, bangs: nat :: UserMentionAt(test, p, bangs)
  {
    UserMentionFrom(test, 0)
  }

  /** Every mention carries an ID, so `GetID` finds one in any text a mention recogniser accepts. */
  lemma MentionCarriesID(s: string)
    requires IsBot(s) || IsUser(s) || IsChannel(s)
    ensures GetID(s) != "" && |GetID(s)| == IdLength
  {
    if IsBot(s) {
      var p: nat :| MentionAt(s, p, "<@&");
      assert IdAt(s, p + 3);
    } else if IsChannel(s) {
      var p: nat :| MentionAt(s, p, "<#");
      assert IdAt(s, p + 2);
    } else {
      var p: nat, bangs: nat :| UserMentionAt(s, p, bangs);
      assert IdAt(s, p + 2 + bangs);
    }
  }
}
