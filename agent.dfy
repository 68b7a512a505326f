/**
 * The agents around the search: an agent's key=value options (`meta`), parsed from a
 * whitespace-separated argument string and later changed by `notify`; the checks a player
 * makes on its name and role; and the two players' `take_action`.
 */
module Agents {
  import opened Wrappers
  import opened Board
  import opened SearchTree
  import opened Mcts

  /** The characters C's `isspace` accepts, which is where `>>` on a string stream splits. */
  predicate IsSpace(c: char)
  {
    c == ' ' || c == '\t' || c == '\n' || c == '\r' || c == '\U{000B}' || c == '\U{000C}'
  }

  /** A token as `>>` extracts it: at least one character and no white space. */
  predicate IsWord(w: string)
  {
    |w| > 0 && forall k :: 0 <= k < |w| ==> !IsSpace(w[k])
  }

  /** The length of the run of non-space characters that starts s. */
  function WordLength(s: string): (n: nat)
    ensures n <= |s|
    ensures forall k :: 0 <= k < n ==> !IsSpace(s[k])
    ensures n < |s| ==> IsSpace(s[n])
  {
    if s == [] || IsSpace(s[0]) then 0 else 1 + WordLength(s[1..])
  }

  /** The tokens a string stream's `>>` reads from s: its maximal runs of non-space characters, in order. */
  function Words(s: string): (ws: seq<string>)
    ensures forall k :: 0 <= k < |ws| ==> IsWord(ws[k])
    decreases |s|
  {
    if s == [] then []
    else if IsSpace(s[0]) then Words(s[1..])
    else
      var n := WordLength(s);
      [s[..n]] + Words(s[n..])
  }

  /** Words separated by single blanks. */
  function Join(ws: seq<string>): string
  {
    if ws == [] then "" else if |ws| == 1 then ws[0] else ws[0] + " " + Join(ws[1..])
  }

  /** A word's run of non-space characters is the whole word, whatever follows a blank. */
  lemma {:induction false} WordLengthOfWord(w: string, rest: string)
    requires IsWord(w)
    ensures WordLength(w) == |w|
    ensures WordLength(w + " " + rest) == |w|
  {
    if |w| > 1 {
      WordLengthOfWord(w[1..], rest);
      assert (w + " " + rest)[1..] == w[1..] + " " + rest;
    } else {
      assert (w + " " + rest)[1..] == " " + rest;
    }
  }

  /** Reading a word, a blank and then the rest gives the word followed by the rest's words. */
  lemma WordsCons(w: string, rest: string)
    requires IsWord(w)
    ensures Words(w + " " + rest) == [w] + Words(rest)
  {
    var s := w + " " + rest;
    WordLengthOfWord(w, rest);
    assert s[..|w|] == w;
    assert s[|w|..] == " " + rest;
    assert (" " + rest)[1..] == rest;
  }

  /** A single word reads back as itself. */
  lemma WordsOfWord(w: string)
    requires IsWord(w)
    ensures Words(w) == [w]
  {
    WordLengthOfWord(w, "");
    assert w[..|w|] == w;
  }

  /** Tokenizing words joined by blanks gives the words back. */
  lemma {:induction false} WordsJoin(ws: seq<string>)
    requires forall k :: 0 <= k < |ws| ==> IsWord(ws[k])
    ensures Words(Join(ws)) == ws
  {
    if |ws| == 1 {
      WordsOfWord(ws[0]);
    } else if |ws| > 1 {
      WordsJoin(ws[1..]);
      WordsCons(ws[0], Join(ws[1..]));
    }
  }

  /** The position of the first '=' of s, `std::string::find('=')`; None stands for npos. */
  function FindEq(s: string): (r: Option<nat>)
    ensures r.Some? ==> r.value < |s| && s[r.value] == '=' && '=' !in s[..r.value]
    ensures r.None? ==> '=' !in s
  {
    if s == [] then None
    else if s[0] == '=' then Some(0)
    else match FindEq(s[1..])
      case None => None
      case Some(k) =>
        assert s[..k + 1] == [s[0]] + s[1..][..k];
        Some(k + 1)
  }

  /** The key of a token: the text before its first '=', or all of it when it has none. */
  function KeyOf(s: string): (key: string)
    ensures '=' !in key
    ensures key <= s
  {
    match FindEq(s)
    case None => s
    case Some(k) => s[..k]
  }

  /**
   * The value of a token: the text after its first '='. Without '=', the "not found" position
   * plus one wraps around to 0, and the value is all of the token.
   */
  function ValueOf(s: string): (value: string)
    ensures '=' in s ==> |value| < |s|
    ensures '=' !in s ==> value == s
  {
    match FindEq(s)
    case None => s
    case Some(k) => s[k + 1..]
  }

  /** The first '=' of s is at k when s[k] is '=' and none comes before it. */
  lemma {:induction false} FindEqAt(s: string, k: nat)
    requires k < |s| && s[k] == '=' && forall j :: 0 <= j < k ==> s[j] != '='
    ensures FindEq(s) == Some(k)
  {
    if k > 0 {
      FindEqAt(s[1..], k - 1);
    }
  }

  /** `key=value`, the form an option takes. */
  function Pair(key: string, value: string): string
  {
    key + "=" + value
  }

  /** A key=value pair splits back into its key and value when the key holds no '='. */
  lemma KeyValueOfPair(key: string, value: string)
    requires '=' !in key
    ensures KeyOf(Pair(key, value)) == key && ValueOf(Pair(key, value)) == value
  {
    var s := Pair(key, value);
    forall j | 0 <= j < |key| ensures s[j] != '=' {
      assert s[j] == key[j];
      assert key[j] in key;
    }
    FindEqAt(s, |key|);
    assert s[..|key|] == key;
    assert s[|key| + 1..] == value;
  }

  /** A word with '=' is its key, '=' and its value; one without is both its key and its value. */
  lemma SplitOnEq(s: string)
    ensures '=' in s ==> KeyOf(s) + "=" + ValueOf(s) == s && '=' !in KeyOf(s)
    ensures '=' !in s ==> KeyOf(s) == s && ValueOf(s) == s
  {
    match FindEq(s)
    case None =>
    case Some(k) =>
      assert s == s[..k] + "=" + s[k + 1..];
  }

  /**
   * The options after storing every pair of ws in order, each one overwriting its key's earlier
   * value; no key of m is lost.
   */
  function Record(m: map<string, string>, ws: seq<string>): (r: map<string, string>)
    ensures m.Keys <= r.Keys
  {
    if ws == [] then m
    else Record(m, ws[..|ws| - 1])[KeyOf(ws[|ws| - 1]) := ValueOf(ws[|ws| - 1])]
  }

  /** An option holds the value of the last pair that names it. */
  lemma {:induction false} RecordLast(m: map<string, string>, ws: seq<string>, key: string, j: nat)
    requires j < |ws| && KeyOf(ws[j]) == key
    requires forall l :: j < l < |ws| ==> KeyOf(ws[l]) != key
    ensures key in Record(m, ws) && Record(m, ws)[key] == ValueOf(ws[j])
  {
    if j < |ws| - 1 {
      RecordLast(m, ws[..|ws| - 1], key, j);
    }
  }

  /** An option no pair names keeps whatever it was before. */
  lemma {:induction false} RecordUntouched(m: map<string, string>, ws: seq<string>, key: string)
    requires forall l :: 0 <= l < |ws| ==> KeyOf(ws[l]) != key
    ensures key in Record(m, ws) <==> key in m
    ensures key in m ==> Record(m, ws)[key] == m[key]
  {
    if ws != [] {
      RecordUntouched(m, ws[..|ws| - 1], key);
    }
  }

  /** A pair of a key and a value without white space is a word. */
  lemma PairIsWord(key: string, value: string)
    requires |key| > 0 && forall k :: 0 <= k < |key| ==> !IsSpace(key[k])
    requires forall k :: 0 <= k < |value| ==> !IsSpace(value[k])
    ensures IsWord(Pair(key, value))
  {
    var s := Pair(key, value);
    forall k | 0 <= k < |s| ensures !IsSpace(s[k]) {
      if k < |key| {
        assert s[k] == key[k];
      } else if k > |key| {
        assert s[k] == value[k - |key| - 1];
      }
    }
  }

  /** The default options an agent class puts before its arguments: "name=<name> role=<role> ". */
  function Defaults(name: string, role: string): string
  {
    Pair("name", name) + " " + Pair("role", role) + " "
  }

  /** Reading the defaults and then args gives the two default pairs, then the words of args. */
  lemma DefaultWords(name: string, role: string, args: string)
    requires forall k :: 0 <= k < |name| ==> !IsSpace(name[k])
    requires forall k :: 0 <= k < |role| ==> !IsSpace(role[k])
    ensures Words(Defaults(name, role) + args) == [Pair("name", name), Pair("role", role)] + Words(args)
  {
    var a := Pair("name", name);
    var b := Pair("role", role);
    PairIsWord("name", name);
    PairIsWord("role", role);
    assert Defaults(name, role) + args == a + " " + (b + " " + args);
    WordsCons(a, b + " " + args);
    WordsCons(b, args);
  }

  /**
   * Options stored over m from a name pair, a role pair and then ws: a key some word of ws
   * names takes the value of the last such word; otherwise name and role take the values of
   * their pairs, and any other key is as in m.
   */
  lemma {:induction false} OptionAfterDefaults(m: map<string, string>, name: string, role: string, ws: seq<string>, key: string)
    ensures var meta := Record(m, [Pair("name", name), Pair("role", role)] + ws);
      (exists j :: 0 <= j < |ws| && KeyOf(ws[j]) == key) ==>
        key in meta && meta[key] == ValueOf(ws[LastNamed(ws, key)])
    ensures var meta := Record(m, [Pair("name", name), Pair("role", role)] + ws);
      (forall j :: 0 <= j < |ws| ==> KeyOf(ws[j]) != key) ==>
        (key == "name" ==> key in meta && meta[key] == name) &&
        (key == "role" ==> key in meta && meta[key] == role) &&
        (key != "name" && key != "role" ==> (key in meta <==> key in m) && (key in m ==> meta[key] == m[key]))
  {
    if exists j :: 0 <= j < |ws| && KeyOf(ws[j]) == key {
      OptionNamed(m, name, role, ws, key);
    } else {
      OptionUnnamed(m, name, role, ws, key);
    }
  }

  /** A key some word of ws names takes the value of the last such word. */
  lemma OptionNamed(m: map<string, string>, name: string, role: string, ws: seq<string>, key: string)
    requires exists j :: 0 <= j < |ws| && KeyOf(ws[j]) == key
    ensures var meta := Record(m, [Pair("name", name), Pair("role", role)] + ws);
      key in meta && meta[key] == ValueOf(ws[LastNamed(ws, key)])
  {
    var all := [Pair("name", name), Pair("role", role)] + ws;
    var j := LastNamed(ws, key);
    assert all[2 + j] == ws[j];
    RecordLast(m, all, key, 2 + j);
  }

  /** A key no word of ws names takes the value of its default pair, or keeps its value in m. */
  lemma OptionUnnamed(m: map<string, string>, name: string, role: string, ws: seq<string>, key: string)
    requires forall j :: 0 <= j < |ws| ==> KeyOf(ws[j]) != key
    ensures var meta := Record(m, [Pair("name", name), Pair("role", role)] + ws);
      (key == "name" ==> key in meta && meta[key] == name) &&
      (key == "role" ==> key in meta && meta[key] == role) &&
      (key != "name" && key != "role" ==> (key in meta <==> key in m) && (key in m ==> meta[key] == m[key]))
  {
    var base := [Pair("name", name), Pair("role", role)];
    RecordSplit(m, base, ws);
    RecordUntouched(Record(m, base), ws, key);
    DefaultPairs(m, name, role, key);
  }

  /** Storing the name pair and then the role pair sets name and role and leaves every other key alone. */
  lemma DefaultPairs(m: map<string, string>, name: string, role: string, key: string)
    ensures var before := Record(m, [Pair("name", name), Pair("role", role)]);
      (key == "name" ==> key in before && before[key] == name) &&
      (key == "role" ==> key in before && before[key] == role) &&
      (key != "name" && key != "role" ==> (key in before <==> key in m) && (key in m ==> before[key] == m[key]))
  {
    var base := [Pair("name", name), Pair("role", role)];
    KeyValueOfPair("name", name);
    KeyValueOfPair("role", role);
    if key == "role" {
      RecordLast(m, base, key, 1);
    } else if key == "name" {
      RecordLast(m, base, key, 0);
    } else {
      RecordUntouched(m, base, key);
    }
  }

  /** The options every agent starts from, before its own arguments: "name=unknown role=unknown ". */
  const AgentDefaults := Defaults("unknown", "unknown")

  /** A name pair and a role pair, stored before anything else, leave both keys present. */
  lemma IdentityKept(m: map<string, string>, name: string, role: string, ws: seq<string>)
    ensures var meta := Record(m, [Pair("name", name), Pair("role", role)] + ws);
      "name" in meta && "role" in meta
  {
    var base := [Pair("name", name), Pair("role", role)];
    KeyValueOfPair("name", name);
    KeyValueOfPair("role", role);
    RecordSplit(m, base, ws);
    RecordLast(m, base, "name", 0);
    RecordLast(m, base, "role", 1);
  }

  /** The options `agent(args)` ends up with; they always hold a name and a role. */
  function AgentMeta(args: string): (meta: map<string, string>)
    ensures "name" in meta && "role" in meta
  {
    DefaultWords("unknown", "unknown", args);
    IdentityKept(map[], "unknown", "unknown", Words(args));
    Record(map[], Words(AgentDefaults + args))
  }

  /**
   * An option of an agent is the value of the last pair naming it in args, or, when none does,
   * "unknown" for name and role and absent for any other key.
   */
  lemma AgentOption(args: string, key: string)
    ensures var ws := Words(args);
      (exists j :: 0 <= j < |ws| && KeyOf(ws[j]) == key) ==>
        key in AgentMeta(args) && AgentMeta(args)[key] == ValueOf(ws[LastNamed(ws, key)])
    ensures var ws := Words(args);
      (forall j :: 0 <= j < |ws| ==> KeyOf(ws[j]) != key) ==>
        if key == "name" || key == "role" then key in AgentMeta(args) && AgentMeta(args)[key] == "unknown"
        else key !in AgentMeta(args)
  {
    DefaultWords("unknown", "unknown", args);
    OptionAfterDefaults(map[], "unknown", "unknown", Words(args), key);
  }

  /** The position of the last pair in ws that names key. */
  function LastNamed(ws: seq<string>, key: string): (j: nat)
    requires exists j :: 0 <= j < |ws| && KeyOf(ws[j]) == key
    ensures j < |ws| && KeyOf(ws[j]) == key
    ensures forall l :: j < l < |ws| ==> KeyOf(ws[l]) != key
  {
    LastNamedBelow(ws, key, |ws|)
  }

  /** The position of the last pair among the first n words of ws that names key. */
  function LastNamedBelow(ws: seq<string>, key: string, n: nat): (j: nat)
    requires n <= |ws| && exists j :: 0 <= j < n && KeyOf(ws[j]) == key
    ensures j < n && KeyOf(ws[j]) == key
    ensures forall l :: j < l < n ==> KeyOf(ws[l]) != key
    decreases n
  {
    if KeyOf(ws[n - 1]) == key then n - 1 else LastNamedBelow(ws, key, n - 1)
  }

  /** Storing a + b is storing a, then b. */
  lemma {:induction false} RecordSplit(m: map<string, string>, a: seq<string>, b: seq<string>)
    ensures Record(m, a + b) == Record(Record(m, a), b)
  {
    if b != [] {
      var init := b[..|b| - 1];
      var last := b[|b| - 1];
      assert a + b == (a + init) + [last];
      assert b == init + [last];
      RecordSplit(m, a, init);
      RecordSnoc(m, a + init, last);
      RecordSnoc(Record(m, a), init, last);
    } else {
      assert a + b == a;
    }
  }

  /** Storing ws and then one more pair w updates w's key to w's value. */
  lemma RecordSnoc(m: map<string, string>, ws: seq<string>, w: string)
    ensures Record(m, ws + [w]) == Record(m, ws)[KeyOf(w) := ValueOf(w)]
  {
    assert (ws + [w])[..|ws|] == ws;
  }

  /** An agent: its options, by key. */
  class Agent {
    var meta: map<string, string>

    /** `agent(args)`: read the pairs of "name=unknown role=unknown " + args, later ones winning. */
    constructor (args: string)
      ensures meta == AgentMeta(args)
    {
      var ws := Words(AgentDefaults + args);
      var m: map<string, string> := map[];
      for k := 0 to |ws|
        invariant m == Record(map[], ws[..k])
      {
        assert ws[..k + 1] == ws[..k] + [ws[k]];
        RecordSnoc(map[], ws[..k], ws[k]);
        m := m[KeyOf(ws[k]) := ValueOf(ws[k])];
      }
      assert ws[..|ws|] == ws;
      meta := m;
    }

    /** `notify(msg)`: store the message's value under its key; the message is not split on blanks. */
    method Notify(msg: string)
      modifies this
      ensures meta == old(meta)[KeyOf(msg) := ValueOf(msg)]
    {
      meta := meta[KeyOf(msg) := ValueOf(msg)];
    }

    /** `property(key)`: the option's value; `meta.at` throws when it is absent, here None. */
    function Property(key: string): (r: Option<string>)
      reads this
      ensures r.Some? <==> key in meta
      ensures r.Some? ==> r.value == meta[key]
    {
      if key in meta then Some(meta[key]) else None
    }

    /** `name()`: the "name" option, absent only if it was never set. */
    function Name(): (r: Option<string>)
      reads this
      ensures r.Some? <==> "name" in meta
      ensures r.Some? ==> r.value == meta["name"]
    {
      Property("name")
    }

    /** `role()`: the "role" option, absent only if it was never set. */
    function Role(): (r: Option<string>)
      reads this
      ensures r.Some? <==> "role" in meta
      ensures r.Some? ==> r.value == meta["role"]
    {
      Property("role")
    }
  }

  /** After `notify("key=value")` the agent reports value for key, and every other option is as before. */
  lemma NotifyThenProperty(meta: map<string, string>, key: string, value: string, other: string)
    requires '=' !in key && other != key
    ensures var after := meta[KeyOf(key + "=" + value) := ValueOf(key + "=" + value)];
      key in after && after[key] == value &&
      (other in after <==> other in meta) && (other in meta ==> after[other] == meta[other])
  {
    KeyValueOfPair(key, value);
  }

  /**
   * Why a player could not be built: the "seed" option is not a number (the conversion throws),
   * the name holds a forbidden character, or the role is neither black nor white.
   */
  datatype PlayerError = InvalidSeed(seed: string) | InvalidName(name: string) | InvalidRole(role: string)

  /** The characters a player's name may not contain. */
  const Forbidden := "[]():; "

  /**
   * The checks of the player constructors: a name containing any of `[]():; ` is refused
   * first; then the role must be "black" or "white", which gives the player's colour.
   */
  function CheckIdentity(name: string, role: string): (r: Result<Colour, PlayerError>)
    ensures (exists k :: 0 <= k < |name| && name[k] in Forbidden) ==> r == Err(InvalidName(name))
    ensures (forall k :: 0 <= k < |name| ==> name[k] !in Forbidden) ==>
      (role == "black" ==> r == Ok(Black)) &&
      (role == "white" ==> r == Ok(White)) &&
      (role != "black" && role != "white" ==> r == Err(InvalidRole(role)))
  {
    if exists k :: 0 <= k < |name| && name[k] in Forbidden then Err(InvalidName(name))
    else if role == "black" then Ok(Black)
    else if role == "white" then Ok(White)
    else Err(InvalidRole(role))
  }

  /** What both player classes put before their arguments: "name=random role=unknown ". */
  const PlayerDefaults := Defaults("random", "unknown")

  /** The options a player is built with: the agent defaults, the player defaults, then args. */
  function PlayerMeta(args: string): (meta: map<string, string>)
    ensures "name" in meta && "role" in meta
  {
    AgentMeta(PlayerDefaults + args)
  }

  /**
   * An option of a player is the value of the last pair naming it in args, or, when none does,
   * "random" for the name, "unknown" for the role, and absent for any other key.
   */
  lemma PlayerOption(args: string, key: string)
    ensures var ws := Words(args);
      (exists j :: 0 <= j < |ws| && KeyOf(ws[j]) == key) ==>
        key in PlayerMeta(args) && PlayerMeta(args)[key] == ValueOf(ws[LastNamed(ws, key)])
    ensures var ws := Words(args);
      (forall j :: 0 <= j < |ws| ==> KeyOf(ws[j]) != key) ==>
        if key == "name" then key in PlayerMeta(args) && PlayerMeta(args)[key] == "random"
        else if key == "role" then key in PlayerMeta(args) && PlayerMeta(args)[key] == "unknown"
        else key !in PlayerMeta(args)
  {
    var agentBase := [Pair("name", "unknown"), Pair("role", "unknown")];
    PlayerMetaUnfold(args);
    OptionAfterDefaults(Record(map[], agentBase), "random", "unknown", Words(args), key);
    if key != "name" && key != "role" {
      OptionAfterDefaults(map[], "unknown", "unknown", [], key);
      assert agentBase + [] == agentBase;
    }
  }

  /** The player's default name and role hold no white space. */
  lemma PlayerDefaultsPlain()
    ensures forall k :: 0 <= k < |"random"| ==> !IsSpace("random"[k])
    ensures forall k :: 0 <= k < |"unknown"| ==> !IsSpace("unknown"[k])
  {
  }

  /** A player's options are the agent defaults recorded first, then the player defaults and args. */
  lemma PlayerMetaUnfold(args: string)
    ensures PlayerMeta(args) ==
      Record(Record(map[], [Pair("name", "unknown"), Pair("role", "unknown")]),
             [Pair("name", "random"), Pair("role", "unknown")] + Words(args))
  {
    var agentBase := [Pair("name", "unknown"), Pair("role", "unknown")];
    var playerWords := [Pair("name", "random"), Pair("role", "unknown")] + Words(args);
    var rest := PlayerDefaults + args;
    assert Words(rest) == playerWords by {
      PlayerDefaultsPlain();
      DefaultWords("random", "unknown", args);
    }
    assert Words(AgentDefaults + rest) == agentBase + Words(rest) by {
      PlayerDefaultsPlain();
      DefaultWords("unknown", "unknown", rest);
    }
    assert PlayerMeta(args) == Record(map[], agentBase + playerWords);
    RecordSplit(map[], agentBase, playerWords);
  }

  /** `space`: one placement of the player's colour per cell, in cell order. */
  function Space(who: Colour): (sp: seq<Action>)
    ensures |sp| == CellCount
    ensures forall c: Cell :: sp[c] == Place(c, who)
  {
    seq(CellCount, (i: int) requires 0 <= i < CellCount => Place(i, who))
  }

  /** `action::place::apply`: whether a placement applies to a board, with the board's own rules. */
  predicate Applies<S>(g: Rules<S>, b: Board<S>, a: Action)
    ensures Applies(g, b, a) ==> a.Place? && a.cell in b.empty
  {
    a.Place? && a.cell in b.empty && g.applies(b.state, a.cell, a.colour)
  }

  /** The position of the first action of acts that applies to b, if any. */
  function FirstApplicable<S>(g: Rules<S>, b: Board<S>, acts: seq<Action>): (r: Option<nat>)
    ensures r.Some? ==> r.value < |acts| && Applies(g, b, acts[r.value])
    ensures r.Some? ==> forall j :: 0 <= j < r.value ==> !Applies(g, b, acts[j])
    ensures r.None? ==> forall j :: 0 <= j < |acts| ==> !Applies(g, b, acts[j])
  {
    if acts == [] then None
    else if Applies(g, b, acts[0]) then Some(0)
    else match FirstApplicable(g, b, acts[1..])
      case None => None
      case Some(k) => Some(k + 1)
  }

  /** The choice of `noob_player::take_action` for a given order of its space. */
  function NoobChoice<S>(g: Rules<S>, b: Board<S>, acts: seq<Action>): (a: Action)
    ensures a.Null? <==> forall j :: 0 <= j < |acts| ==> !Applies(g, b, acts[j])
    ensures a.Place? ==> a in acts && Applies(g, b, a)
  {
    match FirstApplicable(g, b, acts)
    case None => Null
    case Some(k) => acts[k]
  }

  /**
   * Whatever the shuffle, the noob player passes exactly when no cell takes a stone of its
   * colour, and otherwise plays a stone of its colour that applies.
   */
  lemma NoobChoiceSound<S>(g: Rules<S>, b: Board<S>, who: Colour, acts: seq<Action>)
    requires multiset(acts) == multiset(Space(who))
    ensures NoobChoice(g, b, acts).Null? <==> forall c: Cell :: !Applies(g, b, Place(c, who))
    ensures NoobChoice(g, b, acts).Place? ==>
      NoobChoice(g, b, acts).colour == who && Applies(g, b, NoobChoice(g, b, acts))
  {
    var sp := Space(who);
    forall a | a in acts ensures a.Place? && a.colour == who {
      assert a in multiset(sp);
      var c :| 0 <= c < |sp| && sp[c] == a;
    }
    if FirstApplicable(g, b, acts).None? {
      forall c: Cell ensures !Applies(g, b, Place(c, who)) {
        assert sp[c] in multiset(acts);
        var j :| 0 <= j < |acts| && acts[j] == Place(c, who);
      }
    } else {
      var k := FirstApplicable(g, b, acts).value;
      assert acts[k] in acts;
    }
  }

  /**
   * `player` and `noob_player`: the agent they are (its options, and its `notify` and
   * `property`), the colour the role names, and the 81 placements of that colour, which the
   * noob player shuffles in place.
   */
  class Player {
    const agent: Agent
    const who: Colour
    var space: seq<Action>

    ghost predicate Valid()
      reads this
    {
      multiset(space) == multiset(Space(who))
    }

    constructor (base: Agent, colour: Colour)
      ensures agent == base && who == colour && space == Space(colour) && Valid()
    {
      agent := base;
      who := colour;
      space := Space(colour);
    }

    /**
     * `noob_player::take_action`: shuffle the space in place (the shuffle is given), then play
     * the first placement that applies to the state, or pass.
     */
    method NoobAction<S>(g: Rules<S>, state: Board<S>, shuffled: seq<Action>) returns (a: Action)
      requires Valid() && multiset(shuffled) == multiset(space)
      modifies this
      ensures space == shuffled && Valid()
      ensures a == NoobChoice(g, state, shuffled)
    {
      space := shuffled;
      for k := 0 to |space|
        invariant forall j :: 0 <= j < k ==> !Applies(g, state, space[j])
      {
        if Applies(g, state, space[k]) {
          assert FirstApplicable(g, state, space) == Some(k);
          return space[k];
        }
      }
      return Null;
    }

    /**
     * `player::take_action`: build a fresh root for the state and run N search cycles (N is
     * given; the source reads it from the "N" option). The answer is the decision of the tree the
     * N rounds build; it passes exactly when N is 0 or the state has no legal cell, and otherwise
     * is a legal stone of the colour to move. The root's children then hold all N visits.
     */
    method SearchAction<S>(g: Rules<S>, state: Board<S>, n: nat, score: Score, rounds: seq<Shuffles>)
      returns (a: Action)
      requires |rounds| == n && AllShuffles(rounds)
      ensures WellFormed(g, Fresh(state)) && Visited(Fresh(state))
      ensures ChildrenInRange(Search(g, score, rounds, Fresh(state)), 0)
      ensures IsDecision(g, Search(g, score, rounds, Fresh(state)), a)
      ensures ChildVisits(Search(g, score, rounds, Fresh(state))) == if LegalCount(g, state) > 0 then n else 0
      ensures a.Null? <==> n == 0 || LegalCount(g, state) == 0
      ensures a.Place? ==> Legal(g, state, a.cell) && a.colour == Turn(g, state)
    {
      var root := new Tree(g, state);
      ghost var start := root.nodes;
      FreshSearch(g, score, rounds, state);
      a := root.RunMcts(n, score, rounds);
      DecisionIsLegal(g, root.nodes, a);
      if a.Place? {
        LegalCountPositive(g, state, a.cell);
      }
    }
  }

  /**
   * The constructors of `player` and `noob_player`: read the options; convert a "seed" option
   * to a number (`converts` says whether that conversion succeeds), failing first when it
   * cannot; then refuse a bad name or role with the error the source throws.
   */
  method NewPlayer(args: string, converts: string -> bool) returns (r: Result<Player, PlayerError>)
    ensures var meta := PlayerMeta(args);
      if "seed" in meta && !converts(meta["seed"]) then r == Err(InvalidSeed(meta["seed"]))
      else match CheckIdentity(meta["name"], meta["role"])
        case Err(e) => r == Err(e)
        case Ok(colour) =>
          r.Ok? && fresh(r.value) && fresh(r.value.agent) && r.value.Valid() &&
          r.value.agent.meta == meta && r.value.who == colour && r.value.space == Space(colour)
  {
    var agent := new Agent(PlayerDefaults + args);
    var seed := agent.Property("seed");
    if seed.Some? && !converts(seed.value) {
      return Err(InvalidSeed(seed.value));
    }
    var name := agent.Name().value;
    var role := agent.Role().value;
    match CheckIdentity(name, role)
    case Err(e) =>
      r := Err(e);
    case Ok(colour) =>
      var p := new Player(agent, colour);
      r := Ok(p);
  }

  /** A player whose arguments name no role is refused: its role is still "unknown". */
  lemma NoRoleRefused(args: string)
    requires forall j :: 0 <= j < |Words(args)| ==> KeyOf(Words(args)[j]) != "role"
    ensures var meta := PlayerMeta(args);
      "name" in meta && "role" in meta && meta["role"] == "unknown" &&
      CheckIdentity(meta["name"], meta["role"]).Err?
  {
    var meta := PlayerMeta(args);
    PlayerOption(args, "role");
    assert "role" in meta && meta["role"] == "unknown";
    PlayerOption(args, "name");
    assert "name" in meta;
    var name := meta["name"];
    assert "unknown" != "black" && "unknown" != "white";
    assert CheckIdentity(name, "unknown").Err?;
  }
}
