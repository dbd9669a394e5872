/**
  The help command. `Init` runs once, after every command is registered, and indexes
  the registry: a help handler per command that has help text, keyed by its lower-cased
  name, and one embed field per such command. `Handle` answers `!help` with every field
  and `!help <name>` with that command's own help.
*/
module Help {
  import opened Util

  /** A registered command's settings: its name and help text. */
  datatype CommandSettings = CommandSettings(command: string, helpText: string)

  /** One field of the help embed. */
  datatype Field = Field(name: string, value: string)

  /** What `Handle` does: send the embed, send a text, or run the named command's help handler. */
  datatype Reply = Embed(fields: seq<Field>) | Send(text: string) | RunHelp(command: string)

  const NotFoundPrefix := "Unable to find help handler for command: "

  /** The help command's own help reply. */
  const OwnHelpText := "Are you sure _you_ don't need help?"

  /** Registry key `k` names a command with help text. */
  predicate Described(commands: map<string, CommandSettings>, k: string) {
    k in commands && commands[k].helpText != ""
  }

  function DescribedKeys(commands: map<string, CommandSettings>): set<string> {
    set k | k in commands && commands[k].helpText != ""
  }

  /** The help field of registry key `k`: the prefixed name, as registered, and the help text. */
  function FieldOf(prefix: string, commands: map<string, CommandSettings>, k: string): Field
    requires k in commands
  {
    Field(prefix + k, commands[k].helpText)
  }

  /** Registry key `k` has a help handler that answers to `key`. */
  predicate Serves(commands: map<string, CommandSettings>, key: string, k: string) {
    Described(commands, k) && ToLower(k) == key
  }

  /** No two registered names differ only in case. */
  predicate UniqueIgnoringCase(commands: map<string, CommandSettings>) {
    forall k1, k2 :: k1 in commands && k2 in commands && ToLower(k1) == ToLower(k2) ==> k1 == k2
  }

  lemma PrefixCancels(prefix: string, a: string, b: string)
    requires prefix + a == prefix + b
    ensures a == b
  {
    assert a == (prefix + a)[|prefix|..];
    assert b == (prefix + b)[|prefix|..];
  }

  /** `f` is the field of some key in `done` with help text. */
  ghost predicate FieldFromSome(prefix: string, commands: map<string, CommandSettings>, done: set<string>, f: Field) {
    exists k :: k in done && Described(commands, k) && f == FieldOf(prefix, commands, k)
  }

  /** Some key in `done` with help text lowers to `key`. */
  ghost predicate ServedBySome(commands: map<string, CommandSettings>, done: set<string>, key: string) {
    exists k :: k in done && Serves(commands, key, k)
  }

  /**
    `added` are the fields indexed for the keys in `done`: one per key with help text,
    no two alike.
  */
  ghost predicate FieldsFor(added: seq<Field>, prefix: string, commands: map<string, CommandSettings>, done: set<string>) {
    && (forall f :: f in added <==> FieldFromSome(prefix, commands, done, f))
    && (forall a, b :: 0 <= a < b < |added| ==> added[a] != added[b])
    && |added| == |DescribedKeys(commands) * done|
  }

  /**
    `handlers` extends `before` with a handler for each key in `done` that has help text,
    under its lower-cased name; a name no such key lowers to keeps its earlier handler.
  */
  ghost predicate HandlersFor(handlers: map<string, string>, before: map<string, string>,
                              commands: map<string, CommandSettings>, done: set<string>) {
    && (forall key :: key in handlers <==> key in before || ServedBySome(commands, done, key))
    && (forall key :: key in handlers ==>
          if ServedBySome(commands, done, key) then Serves(commands, key, handlers[key])
          else key in before && handlers[key] == before[key])
  }

  lemma FieldFromSomeAdd(prefix: string, commands: map<string, CommandSettings>, done: set<string>, k: string, f: Field)
    ensures FieldFromSome(prefix, commands, done + {k}, f) <==>
            FieldFromSome(prefix, commands, done, f) || (Described(commands, k) && f == FieldOf(prefix, commands, k))
  {
    if FieldFromSome(prefix, commands, done + {k}, f) {
      var k' :| k' in done + {k} && Described(commands, k') && f == FieldOf(prefix, commands, k');
      if k' != k {
        assert FieldFromSome(prefix, commands, done, f);
      }
    }
    if Described(commands, k) && f == FieldOf(prefix, commands, k) {
      assert k in done + {k};
    }
  }

  lemma ServedBySomeAdd(commands: map<string, CommandSettings>, done: set<string>, k: string, key: string)
    ensures ServedBySome(commands, done + {k}, key) <==> ServedBySome(commands, done, key) || Serves(commands, key, k)
  {
    if ServedBySome(commands, done + {k}, key) {
      var k' :| k' in done + {k} && Serves(commands, key, k');
      if k' != k {
        assert ServedBySome(commands, done, key);
      }
    }
    if Serves(commands, key, k) {
      assert k in done + {k};
    }
  }

  lemma FieldsStep(added: seq<Field>, prefix: string, commands: map<string, CommandSettings>, done: set<string>, k: string)
    requires FieldsFor(added, prefix, commands, done) && k !in done
    ensures Described(commands, k) ==> FieldsFor(added + [FieldOf(prefix, commands, k)], prefix, commands, done + {k})
    ensures !Described(commands, k) ==> FieldsFor(added, prefix, commands, done + {k})
  {
    forall f {
      FieldFromSomeAdd(prefix, commands, done, k, f);
    }
    if Described(commands, k) {
      var field := FieldOf(prefix, commands, k);
      var grown := added + [field];
      forall f | f in added
        ensures f != field
      {
        var k' :| k' in done && Described(commands, k') && f == FieldOf(prefix, commands, k');
        if f == field {
          PrefixCancels(prefix, k', k);
        }
      }
      forall a, b | 0 <= a < b < |grown|
        ensures grown[a] != grown[b]
      {
        assert grown[a] == added[a] && added[a] in added;
        if b < |added| {
          assert grown[b] == added[b];
        }
      }
      assert DescribedKeys(commands) * (done + {k}) == DescribedKeys(commands) * done + {k};
    } else {
      assert DescribedKeys(commands) * (done + {k}) == DescribedKeys(commands) * done;
    }
  }

  lemma HandlersStep(handlers: map<string, string>, before: map<string, string>,
                     commands: map<string, CommandSettings>, done: set<string>, k: string)
    requires HandlersFor(handlers, before, commands, done)
    ensures Described(commands, k) ==> HandlersFor(handlers[ToLower(k) := k], before, commands, done + {k})
    ensures !Described(commands, k) ==> HandlersFor(handlers, before, commands, done + {k})
  {
    forall key {
      ServedBySomeAdd(commands, done, k, key);
    }
    if Described(commands, k) {
      var grown := handlers[ToLower(k) := k];
      forall key | key in grown
        ensures if ServedBySome(commands, done + {k}, key) then Serves(commands, key, grown[key])
                else key in before && grown[key] == before[key]
      {
        if key == ToLower(k) {
          assert Serves(commands, key, k);
        } else {
          assert !Serves(commands, key, k) && grown[key] == handlers[key];
        }
      }
    }
  }

  /** The keys an order visits. */
  ghost function Visited(order: seq<string>): set<string> {
    set k | k in order
  }

  /** No key is visited twice. */
  predicate NoRepeats(order: seq<string>) {
    forall a, b :: 0 <= a < b < |order| ==> order[a] != order[b]
  }

  /** The handler table after visiting the registry keys in `order`, starting from `before`. */
  function HandlersAfter(before: map<string, string>, commands: map<string, CommandSettings>, order: seq<string>): map<string, string>
    decreases |order|
  {
    if order == [] then before
    else
      var h := HandlersAfter(before, commands, order[..|order| - 1]);
      var k := order[|order| - 1];
      if Described(commands, k) then h[ToLower(k) := k] else h
  }

  /** The fields appended while visiting the registry keys in `order`. */
  function FieldsAfter(prefix: string, commands: map<string, CommandSettings>, order: seq<string>): seq<Field>
    decreases |order|
  {
    if order == [] then []
    else
      var added := FieldsAfter(prefix, commands, order[..|order| - 1]);
      var k := order[|order| - 1];
      if Described(commands, k) then added + [FieldOf(prefix, commands, k)] else added
  }

  /** Visiting key `k` next changes the handlers and fields only by `k`'s own entry, if it has help text. */
  lemma VisitNext(prefix: string, commands: map<string, CommandSettings>, before: map<string, string>, order: seq<string>, k: string)
    ensures HandlersAfter(before, commands, order + [k]) ==
            if Described(commands, k) then HandlersAfter(before, commands, order)[ToLower(k) := k]
            else HandlersAfter(before, commands, order)
    ensures FieldsAfter(prefix, commands, order + [k]) ==
            if Described(commands, k) then FieldsAfter(prefix, commands, order) + [FieldOf(prefix, commands, k)]
            else FieldsAfter(prefix, commands, order)
  {
    assert (order + [k])[..|order|] == order;
  }

  /** Appending a key not yet visited keeps the order free of repeats and adds the key to the visited set. */
  lemma VisitNew(order: seq<string>, k: string)
    requires NoRepeats(order) && k !in Visited(order)
    ensures NoRepeats(order + [k]) && Visited(order + [k]) == Visited(order) + {k}
  {
    assert (order + [k])[..|order|] == order;
  }

  /** The visit before the last one was free of repeats too, and the last key was new. */
  lemma VisitOneMore(order: seq<string>)
    requires order != [] && NoRepeats(order)
    ensures NoRepeats(order[..|order| - 1])
    ensures order[|order| - 1] !in Visited(order[..|order| - 1])
    ensures Visited(order) == Visited(order[..|order| - 1]) + {order[|order| - 1]}
  {
    var init := order[..|order| - 1];
    var k := order[|order| - 1];
    forall a | 0 <= a < |init|
      ensures init[a] != k
    {
      assert init[a] == order[a];
    }
    assert order == init + [k];
  }

  /** Whatever the visiting order, as long as no key is visited twice, there is one field per visited key with help text. */
  lemma {:induction false} AnyOrderFields(prefix: string, commands: map<string, CommandSettings>, order: seq<string>)
    requires NoRepeats(order)
    ensures FieldsFor(FieldsAfter(prefix, commands, order), prefix, commands, Visited(order))
  {
    if order == [] {
      assert Visited(order) == {};
      assert DescribedKeys(commands) * {} == {};
    } else {
      var init := order[..|order| - 1];
      VisitOneMore(order);
      AnyOrderFields(prefix, commands, init);
      FieldsStep(FieldsAfter(prefix, commands, init), prefix, commands, Visited(init), order[|order| - 1]);
    }
  }

  /** Whatever the visiting order, the handlers serve exactly the visited keys with help text. */
  lemma {:induction false} AnyOrderHandlers(commands: map<string, CommandSettings>, before: map<string, string>, order: seq<string>)
    requires NoRepeats(order)
    ensures HandlersFor(HandlersAfter(before, commands, order), before, commands, Visited(order))
  {
    if order == [] {
      assert Visited(order) == {};
    } else {
      var init := order[..|order| - 1];
      VisitOneMore(order);
      AnyOrderHandlers(commands, before, init);
      HandlersStep(HandlersAfter(before, commands, init), before, commands, Visited(init), order[|order| - 1]);
    }
  }

  /** Once every registry key has been visited, every command with help text is indexed, and only those. */
  lemma CompleteOrderIndexes(prefix: string, commands: map<string, CommandSettings>, before: map<string, string>, order: seq<string>)
    requires NoRepeats(order) && Visited(order) == commands.Keys
    ensures FieldsFor(FieldsAfter(prefix, commands, order), prefix, commands, commands.Keys)
    ensures HandlersFor(HandlersAfter(before, commands, order), before, commands, commands.Keys)
    ensures |FieldsAfter(prefix, commands, order)| == |DescribedKeys(commands)|
  {
    AnyOrderFields(prefix, commands, order);
    AnyOrderHandlers(commands, before, order);
    assert DescribedKeys(commands) * commands.Keys == DescribedKeys(commands);
  }

  /** The order in which `range` visits a map's keys: each key once, in an order the program does not choose. */
  method MapOrder(commands: map<string, CommandSettings>) returns (order: seq<string>)
    ensures NoRepeats(order) && Visited(order) == commands.Keys
  {
    order := [];
    var remaining := commands.Keys;
    while remaining != {}
      invariant NoRepeats(order)
      invariant remaining == commands.Keys - Visited(order) && Visited(order) <= commands.Keys
      decreases |remaining|
    {
      var k :| k in remaining;
      VisitNew(order, k);
      order := order + [k];
      remaining := remaining - {k};
    }
  }

  /** The help index: the package-level handler table and field list. */
  class HelpIndex {
    /** Lower-cased command name to the registry key whose help handler runs. */
    var handlers: map<string, string>
    var fields: seq<Field>

    constructor ()
      ensures handlers == map[] && fields == []
    {
      handlers := map[];
      fields := [];
    }

    /**
      `Init`: visits the registry keys in the order `range` gives, which the caller does
      not choose (`order`); the state after it is the state that visiting order gives.
      Every command with help text gets a handler and one field, and `loaded` counts them.
    */
    method Init(prefix: string, commands: map<string, CommandSettings>) returns (loaded: nat, ghost order: seq<string>)
      modifies this
      ensures NoRepeats(order) && Visited(order) == commands.Keys
      ensures handlers == HandlersAfter(old(handlers), commands, order)
      ensures fields == old(fields) + FieldsAfter(prefix, commands, order)
      ensures loaded == |FieldsAfter(prefix, commands, order)| == |DescribedKeys(commands)|
    {
      var keys := MapOrder(commands);
      order := keys;
      var i := 0;
      for n := 0 to |keys|
        invariant handlers == HandlersAfter(old(handlers), commands, keys[..n])
        invariant fields == old(fields) + FieldsAfter(prefix, commands, keys[..n])
        invariant i == |FieldsAfter(prefix, commands, keys[..n])|
      {
        var k := keys[n];
        var msg := commands[k].helpText;
        VisitNext(prefix, commands, old(handlers), keys[..n], k);
        assert keys[..n + 1] == keys[..n] + [k];
        if |msg| == 0 {
          continue;
        }
        handlers := handlers[ToLower(k) := k];
        assert (old(fields) + FieldsAfter(prefix, commands, keys[..n])) + [Field(prefix + k, msg)]
            == old(fields) + (FieldsAfter(prefix, commands, keys[..n]) + [Field(prefix + k, msg)]);
        fields := fields + [Field(prefix + k, msg)];
        i := i + 1;
      }
      assert keys[..|keys|] == keys;
      CompleteOrderIndexes(prefix, commands, old(handlers), order);
      loaded := i;
    }

    /** `Handle`: no argument shows every field; otherwise the lower-cased argument selects a help handler. */
    function Handle(arguments: seq<string>): (r: Reply)
      reads this
      ensures |arguments| == 0 ==> r == Embed(fields)
      ensures |arguments| != 0 ==> (r.RunHelp? <==> ToLower(arguments[0]) in handlers)
      ensures r.RunHelp? ==> r.command == handlers[ToLower(arguments[0])]
      ensures |arguments| != 0 && !r.RunHelp? ==> r == Send(NotFoundPrefix + ToLower(arguments[0]))
    {
      if |arguments| == 0 then Embed(fields)
      else
        var cmd := ToLower(arguments[0]);
        if cmd in handlers then RunHelp(handlers[cmd])
        else Send(NotFoundPrefix + cmd)
    }
  }

  /**
    The help command as the bot runs it: a fresh index, `Init` over the registry, then one
    `Handle`. The embed holds one field per command with help text; a name is answered by
    the help of a command with help text registered under it, case ignored (the one such
    command when registered names are unique ignoring case), and a command without help
    text has no help handler of its own.
  */
  method HelpAfterInit(prefix: string, commands: map<string, CommandSettings>, arguments: seq<string>)
    returns (reply: Reply)
    ensures |arguments| == 0 ==> reply.Embed?
    ensures |arguments| == 0 ==> |reply.fields| == |DescribedKeys(commands)|
    ensures |arguments| == 0 ==> forall f :: f in reply.fields <==>
              exists k :: Described(commands, k) && f == FieldOf(prefix, commands, k)
    ensures |arguments| != 0 && (exists k :: Serves(commands, ToLower(arguments[0]), k)) ==>
              reply.RunHelp? && Serves(commands, ToLower(arguments[0]), reply.command)
    ensures |arguments| != 0 && UniqueIgnoringCase(commands) ==>
              forall k :: Serves(commands, ToLower(arguments[0]), k) ==> reply == RunHelp(k)
    ensures |arguments| != 0 && (forall k :: !Serves(commands, ToLower(arguments[0]), k)) ==>
              reply == Send(NotFoundPrefix + ToLower(arguments[0]))
    ensures |arguments| != 0 && UniqueIgnoringCase(commands)
            && arguments[0] in commands && commands[arguments[0]].helpText == "" ==>
              reply == Send(NotFoundPrefix + ToLower(arguments[0]))
  {
    var index := new HelpIndex();
    var _, order := index.Init(prefix, commands);
    CompleteOrderIndexes(prefix, commands, map[], order);
    reply := index.Handle(arguments);
  }
}
