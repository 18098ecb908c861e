/** Starting a server: what `main` lets through, the argument loop of the parent, which
    parses what it needs to cache a session, and that of the daemon it starts, which
    parses the same arguments again. */
module ServerArgs {
  import opened Common

  const PORT: nat := 61696
  const MAX_DEVICES: nat := 32
  const U16_LIMIT: nat := 0x1_0000
  const USIZE_LIMIT: nat := 0x1_0000_0000_0000_0000

  // --- numbers ---

  predicate Digits(s: string) { forall i | 0 <= i < |s| :: '0' <= s[i] <= '9' }

  function Decimal(s: string): nat
    requires Digits(s)
  {
    if s == [] then 0
    else 10 * Decimal(s[..|s| - 1]) + (s[|s| - 1] as int - '0' as int)
  }

  /** `str::parse` for an unsigned type: an optional plus sign, then digits. */
  function Parse(s: string, limit: nat): Option<nat> {
    var digits := if s != [] && s[0] == '+' then s[1..] else s;
    if digits != [] && Digits(digits) && Decimal(digits) < limit then Some(Decimal(digits)) else None
  }

  // --- what the arguments say ---

  datatype Item =
    | Password(text: string) | LogFile(text: string) | Max(text: string)
    | Positional(text: string) | Unknown(text: string)

  predicate IsPassword(a: string) { a == "-p" }
  predicate IsLog(a: string) { a == "-l" || a == "--log" }
  predicate IsMax(a: string) { a == "-m" || a == "--max-devices" }
  predicate IsOption(a: string) { a != [] && a[0] == '-' }

  /** The first item, and how many arguments it takes. */
  function FirstItem(args: seq<string>): (r: (Item, nat))
    requires args != []
    ensures 1 <= r.1 <= |args|
  {
    var a := args[0];
    if IsPassword(a) && 1 < |args| then (Password(args[1]), 2)
    else if IsLog(a) && 1 < |args| then (LogFile(args[1]), 2)
    else if IsMax(a) && 1 < |args| then (Max(args[1]), 2)
    else if IsOption(a) then (Unknown(a), 1)
    else (Positional(a), 1)
  }

  function Items(args: seq<string>): seq<Item>
    decreases |args|
  {
    if args == [] then []
    else
      var (item, n) := FirstItem(args);
      [item] + Items(args[n..])
  }

  /** The password, log file, port and device limit that the last item of each kind sets. */
  function PasswordOf(items: seq<Item>): Option<string> {
    if items == [] then None
    else
      var last := items[|items| - 1];
      if last.Password? then Some(last.text) else PasswordOf(items[..|items| - 1])
  }

  function LogOf(items: seq<Item>): Option<string> {
    if items == [] then None
    else
      var last := items[|items| - 1];
      if last.LogFile? then Some(last.text) else LogOf(items[..|items| - 1])
  }

  /** A port that does not parse counts as the default one. */
  function PortOf(items: seq<Item>): nat {
    if items == [] then PORT
    else
      var last := items[|items| - 1];
      if last.Positional? then
        match Parse(last.text, U16_LIMIT) { case Some(port) => port case None => PORT }
      else PortOf(items[..|items| - 1])
  }

  function MaxOf(items: seq<Item>): nat {
    if items == [] then MAX_DEVICES
    else
      var last := items[|items| - 1];
      if last.Max? then
        match Parse(last.text, USIZE_LIMIT) { case Some(max) => max case None => MAX_DEVICES }
      else MaxOf(items[..|items| - 1])
  }

  /** Item `i` is the last one of its kind. */
  predicate LastOfKind(items: seq<Item>, i: nat) {
    && i < |items|
    && forall j | i < j < |items| ::
         match items[i]
         case Password(_) => !items[j].Password?
         case LogFile(_) => !items[j].LogFile?
         case Max(_) => !items[j].Max?
         case Positional(_) => !items[j].Positional?
         case Unknown(_) => !items[j].Unknown?
  }

  /** The last item of each kind wins, wherever it stands. */
  lemma {:induction false} LastWins(items: seq<Item>, i: nat)
    requires LastOfKind(items, i)
    ensures match items[i]
            case Password(text) => PasswordOf(items) == Some(text)
            case LogFile(text) => LogOf(items) == Some(text)
            case Max(text) =>
              MaxOf(items) == (if Parse(text, USIZE_LIMIT).Some? then Parse(text, USIZE_LIMIT).value else MAX_DEVICES)
            case Positional(text) =>
              PortOf(items) == (if Parse(text, U16_LIMIT).Some? then Parse(text, U16_LIMIT).value else PORT)
            case Unknown(_) => true
  {
    hide Parse;
    if i < |items| - 1 {
      LastWins(items[..|items| - 1], i);
    }
  }

  /** Without an item of a kind there is a default. */
  lemma {:induction false} Defaults(items: seq<Item>)
    ensures (forall x | x in items :: !x.Password?) ==> PasswordOf(items) == None
    ensures (forall x | x in items :: !x.LogFile?) ==> LogOf(items) == None
    ensures (forall x | x in items :: !x.Max?) ==> MaxOf(items) == MAX_DEVICES
    ensures (forall x | x in items :: !x.Positional?) ==> PortOf(items) == PORT
  {
    hide Parse;
    if items != [] {
      Defaults(items[..|items| - 1]);
    }
  }

  // --- how they are written ---

  /** The words of an item, with the long or the short name of its option. */
  function Words(item: Item, long: bool): seq<string> {
    match item
    case Password(text) => ["-p", text]
    case LogFile(text) => [if long then "--log" else "-l", text]
    case Max(text) => [if long then "--max-devices" else "-m", text]
    case Positional(text) => [text]
    case Unknown(text) => [text]
  }

  /** Only other words that begin with a dash are unknown options. */
  predicate Writable(item: Item) {
    && (item.Positional? ==> !IsOption(item.text))
    && (item.Unknown? ==>
          IsOption(item.text) && item.text !in ["-p", "-l", "--log", "-m", "--max-devices"])
  }

  function AllWords(items: seq<Item>, long: bool): seq<string> {
    if items == [] then [] else Words(items[0], long) + AllWords(items[1..], long)
  }

  /** Arguments say what they were written to say. */
  lemma {:induction false} WordsUnderstood(items: seq<Item>, long: bool)
    requires forall x | x in items :: Writable(x)
    ensures Items(AllWords(items, long)) == items
  {
    hide FirstItem, Words, Writable;
    if items != [] {
      var w, rest := Words(items[0], long), AllWords(items[1..], long);
      WordsUnderstood(items[1..], long);
      FirstWords(items[0], long, rest);
      assert (w + rest)[|w|..] == rest;
    }
  }

  lemma FirstWords(item: Item, long: bool, rest: seq<string>)
    requires Writable(item)
    ensures var w := Words(item, long); w != [] && FirstItem(w + rest) == (item, |w|)
  {
    var w := Words(item, long);
    assert (w + rest)[0] == w[0] && (|w| == 2 ==> (w + rest)[1] == w[1]);
  }

  /** No item is one the parent stops at; and none is one the daemon stops at. */
  predicate Known(items: seq<Item>) { forall x | x in items :: !x.Unknown? }

  predicate Sound(x: Item) {
    && !x.Unknown?
    && (x.Positional? ==> Parse(x.text, U16_LIMIT).Some?)
    && (x.Max? ==> Parse(x.text, USIZE_LIMIT).Some?)
  }

  predicate AllSound(items: seq<Item>) { forall x | x in items :: Sound(x) }

  // --- the two loops ---

  lemma NextItem(args: seq<string>, i: nat, done: seq<Item>)
    requires i < |args| && Items(args) == done + Items(args[i..])
    ensures var (item, n) := FirstItem(args[i..]);
            && Items(args) == done + [item] + Items(args[i + n..]) && item in Items(args)
            && (done + [item])[..|done|] == done
  {
    hide FirstItem;
    var (item, n) := FirstItem(args[i..]);
    assert args[i..][n..] == args[i + n..];
    Regroup(Items(args), done, item, Items(args[i + n..]));
  }

  lemma Regroup<T>(all: seq<T>, done: seq<T>, x: T, rest: seq<T>)
    requires all == done + ([x] + rest)
    ensures all == done + [x] + rest && x in all && (done + [x])[..|done|] == done
  {
    assert all[|done|] == x;
  }

  /** The loop of `server_cmd`: None where it exits on an unknown option. */
  method ParseParent(args: seq<string>) returns (r: Option<(nat, Option<string>, Option<string>)>)
    ensures var items := Items(args);
            r == if Known(items) then Some((PortOf(items), PasswordOf(items), LogOf(items))) else None
  {
    hide Parse, Known, Sound, IsPassword, IsLog, IsMax, IsOption, Items;
    NothingSound();
    var port, password, log, i := PORT, None, None, 0;
    ghost var done: seq<Item> := [];
    assert args[0..] == args;
    while i < |args|
      invariant 0 <= i <= |args| && Items(args) == done + Items(args[i..])
      invariant port == PortOf(done) && password == PasswordOf(done) && log == LogOf(done)
      invariant Known(done)
    {
      var a := args[i];
      ghost var item := FirstItem(args[i..]).0;
      NextItem(args, i, done);
      KnownSnoc(done, item);
      Stops(Items(args), item);
      if IsPassword(a) && i + 1 < |args| {
        password := Some(args[i + 1]);
        i := i + 2;
      } else if IsLog(a) && i + 1 < |args| {
        log := Some(args[i + 1]);
        i := i + 2;
      } else if IsMax(a) && i + 1 < |args| {
        i := i + 2;
      } else if IsOption(a) {
        return None;
      } else {
        var parsed := Parse(a, U16_LIMIT);
        port := if parsed.Some? then parsed.value else PORT;
        i := i + 1;
      }
      done := done + [item];
    }
    assert args[i..] == [] && done + [] == done;
    return Some((port, password, log));
  }

  lemma NothingSound()
    ensures Known([]) && AllSound([]) && Items([]) == []
  {
  }

  /** An item that stops a loop makes the whole list unacceptable. */
  lemma Stops(items: seq<Item>, x: Item)
    requires x in items
    ensures x.Unknown? ==> !Known(items)
    ensures !Sound(x) ==> !AllSound(items)
  {
    hide Sound;
  }

  lemma KnownSnoc(done: seq<Item>, item: Item)
    ensures Known(done + [item]) <==> Known(done) && !item.Unknown?
    ensures AllSound(done + [item]) <==> AllSound(done) && Sound(item)
  {
    hide Sound;
    assert item in done + [item];
    forall x | x in done ensures x in done + [item] {}
  }

  /** The loop of `run_server`: None where it fails. */
  method ParseDaemon(args: seq<string>) returns (r: Option<(nat, Option<string>, nat)>)
    ensures var items := Items(args);
            r == if AllSound(items) then Some((PortOf(items), PasswordOf(items), MaxOf(items))) else None
  {
    hide Parse, Known, AllSound, IsPassword, IsLog, IsMax, IsOption, Items;
    NothingSound();
    var port, password, max, i := PORT, None, MAX_DEVICES, 0;
    ghost var done: seq<Item> := [];
    assert args[0..] == args;
    while i < |args|
      invariant 0 <= i <= |args| && Items(args) == done + Items(args[i..])
      invariant port == PortOf(done) && password == PasswordOf(done) && max == MaxOf(done)
      invariant AllSound(done)
    {
      var a := args[i];
      ghost var item := FirstItem(args[i..]).0;
      NextItem(args, i, done);
      KnownSnoc(done, item);
      Stops(Items(args), item);
      if IsPassword(a) && i + 1 < |args| {
        password := Some(args[i + 1]);
        i := i + 2;
      } else if IsLog(a) && i + 1 < |args| {
        i := i + 2;
      } else if IsMax(a) && i + 1 < |args| {
        var parsed := Parse(args[i + 1], USIZE_LIMIT);
        if parsed.None? { return None; }
        max := parsed.value;
        i := i + 2;
      } else if IsOption(a) {
        return None;
      } else {
        var parsed := Parse(a, U16_LIMIT);
        if parsed.None? { return None; }
        port := parsed.value;
        i := i + 1;
      }
      done := done + [item];
    }
    assert args[i..] == [] && done + [] == done;
    return Some((port, password, max));
  }

  // --- the gate in front of them ---

  predicate Subcommand(a: string) {
    || a == "dict" || a == "fetch2" || a == "device" || a == "shell" || a == "exec" || a == "stop" || a == "pid"
    || a == "help" || a == "--help" || a == "-h"
  }

  /** The first argument that does not begin with a dash, whatever precedes it. */
  function Target(args: seq<string>): Option<string> {
    if args == [] then None else if IsOption(args[0]) then Target(args[1..]) else Some(args[0])
  }

  /** `main` goes on to the server: the first word is no subcommand, and the first
      argument without a dash, if any, is a port. */
  predicate Admitted(args: seq<string>) {
    && (args != [] ==> !Subcommand(args[0]))
    && (Target(args).Some? ==> ':' !in Target(args).value && Parse(Target(args).value, U16_LIMIT).Some?)
  }

  /** The part of `main` before `server_cmd`. */
  method Admit(args: seq<string>) returns (r: bool)
    ensures r <==> Admitted(args)
    ensures forall i | 0 <= i < |args| && !IsOption(args[i]) && (forall j | 0 <= j < i :: IsOption(args[j])) ::
              r <==> !Subcommand(args[0]) && ':' !in args[i] && Parse(args[i], U16_LIMIT).Some?
    ensures (forall i | 0 <= i < |args| :: IsOption(args[i])) ==> (r <==> args == [] || !Subcommand(args[0]))
  {
    hide Subcommand, IsOption, Parse;
    if |args| > 0 && Subcommand(args[0]) { return false; }
    var i := 0;
    assert args[0..] == args;
    while i < |args| && IsOption(args[i])
      invariant 0 <= i <= |args| && Target(args) == Target(args[i..])
      invariant forall j | 0 <= j < i :: IsOption(args[j])
    {
      assert args[i..][1..] == args[i + 1..];
      i := i + 1;
    }
    if i == |args| { return true; }
    var target := args[i];
    assert Target(args) == Some(target);
    return ':' !in target && Parse(target, U16_LIMIT).Some?;
  }

  predicate Unparsable(x: Item) {
    || (x.Positional? && Parse(x.text, U16_LIMIT).None?)
    || (x.Max? && Parse(x.text, USIZE_LIMIT).None?)
  }

  /** The command that starts a server: the session the parent caches and the server
      that then runs. A server runs exactly when the arguments are admitted and every
      one is sound, and then the cached session points at it. A session is cached for
      a server that does not run exactly when they are admitted, every option is known,
      but some further port or a device limit does not parse. Otherwise there is
      neither. */
  method StartServer(args: seq<string>)
    returns (session: Option<(nat, Option<string>)>, running: Option<(nat, Option<string>)>)
    ensures running.Some? ==> session == running && running.value.0 < U16_LIMIT
    ensures session.Some? ==> session.value == (PortOf(Items(args)), PasswordOf(Items(args)))
    ensures running.Some? <==> Admitted(args) && forall x | x in Items(args) :: Sound(x)
    ensures session.Some? && running.None? <==>
              && Admitted(args)
              && (forall x | x in Items(args) :: !x.Unknown?)
              && (exists x :: x in Items(args) && Unparsable(x))
    ensures session.None? <==> !Admitted(args) || exists x :: x in Items(args) && x.Unknown?
  {
    hide Admitted;
    session, running := None, None;
    PortFits(Items(args));
    var admitted := Admit(args);
    if !admitted { return; }
    var parent := ParseParent(args);
    if parent.None? { return; }
    session := Some((parent.value.0, parent.value.1));
    // The daemon is the same program with the same arguments, so it is admitted too.
    var daemon := ParseDaemon(args);
    if daemon.Some? { running := Some((daemon.value.0, daemon.value.1)); }
  }

  lemma SmallNumbers()
    ensures Parse("9000", U16_LIMIT) == Some(9000) && Parse("70000", U16_LIMIT) == None
  {
    var s, t := "70000", "9000";
    assert s[..4] == "7000" && s[..3] == "700" && s[..2] == "70" && s[..1] == "7";
    assert "7000"[..3] == "700" && "700"[..2] == "70" && "70"[..1] == "7" && "7"[..0] == "";
    assert Decimal("7") == 7 && Decimal("70") == 70 && Decimal("700") == 700;
    assert Decimal("7000") == 7000 && Decimal(s) == 70000;
    assert t[..3] == "900" && "900"[..2] == "90" && "90"[..1] == "9" && "9"[..0] == "";
    assert Decimal("9") == 9 && Decimal("90") == 90 && Decimal("900") == 900 && Decimal(t) == 9000;
  }

  /** A second port that is too large: `main` looks at the first one only, the parent
      goes on with the default port, the daemon refuses, and the session is cached for
      a server that does not run. */
  lemma TooLargePort()
    ensures var args := ["9000", "70000"];
            && Admitted(args) && Items(args) == [Positional("9000"), Positional("70000")]
            && Known(Items(args)) && PortOf(Items(args)) == PORT && Unparsable(Items(args)[1])
  {
    hide Parse;
    SmallNumbers();
    var args: seq<string> := ["9000", "70000"];
    assert args[1..] == ["70000"] && |args[1..][1..]| == 0;
    assert Items(args[1..]) == [Positional("70000")] + Items(args[1..][1..]);
    assert Items(args) == [Positional("9000")] + Items(args[1..]);
    assert ':' !in "9000";
  }

  /** Alone, the same port starts nothing. */
  lemma TooLargePortAlone()
    ensures !Admitted(["70000"])
  {
    hide Parse;
    SmallNumbers();
    var args: seq<string> := ["70000"];
    assert Target(args) == Some("70000");
  }

  lemma {:induction false} PortFits(items: seq<Item>)
    ensures PortOf(items) < U16_LIMIT
  {
    if items != [] { PortFits(items[..|items| - 1]); }
  }
}
