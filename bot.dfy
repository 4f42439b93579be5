/** Start-up of the bot process (src/bot.js): after the `.env` load, every
    `.js` file of the commands directory is required and stored in
    `client.commands` under its `data.name`, and every `.js` file of the
    events directory is attached to the client with `once` or `on`. */
module Bot {
  import opened Wrappers
  import opened Text
  import opened Folds

  /** A command module as far as loading goes: its `data.name`. */
  datatype CommandModule = CommandModule(dataName: string)

  /** An event module: the event it handles and its `once` flag. */
  datatype EventModule = EventModule(name: string, once: bool)

  datatype Mode = Once | On

  /** One `client.once(name, …)` or `client.on(name, …)` call. */
  datatype Listener = Listener(event: string, mode: Mode)

  /** `file.endsWith('.js')`, the filter on both directory listings. */
  predicate IsJsFile(name: string) {
    EndsWith(name, ".js")
  }

  /** The directory entry `file` is loaded and registers a command `key`. */
  predicate Loads(file: (string, CommandModule), key: string) {
    IsJsFile(file.0) && file.1.dataName == key
  }

  /** The registry after the files, taken in listing order. */
  function Registry(commands: map<string, CommandModule>, files: seq<(string, CommandModule)>): map<string, CommandModule>
    decreases |files|
  {
    if files == [] then commands
    else
      var before := Registry(commands, files[..|files| - 1]);
      var (name, command) := files[|files| - 1];
      if IsJsFile(name) then before[command.dataName := command] else before
  }

  /** The listener an event module gets. */
  function ListenerFor(event: EventModule): Listener {
    Listener(event.name, if event.once then Once else On)
  }

  /** The listeners the event files add, in listing order. */
  function Listeners(files: seq<(string, EventModule)>): seq<Listener>
    decreases |files|
  {
    if files == [] then []
    else
      var (name, event) := files[|files| - 1];
      Listeners(files[..|files| - 1]) + if IsJsFile(name) then [ListenerFor(event)] else []
  }

  /** The parts of the Discord client the start-up fills in. */
  class Client {
    var commands: map<string, CommandModule>
    var listeners: seq<Listener>

    /** `new Client(…)` followed by `client.commands = new Collection()`. */
    constructor()
      ensures commands == map[] && listeners == []
    {
      commands := map[];
      listeners := [];
    }

    /** The command loop: `client.commands.set(command.data.name, command)`
        for each `.js` entry. */
    method LoadCommands(files: seq<(string, CommandModule)>)
      modifies this
      ensures commands == Registry(old(commands), files)
      ensures listeners == old(listeners)
    {
      for i := 0 to |files|
        invariant commands == Registry(old(commands), files[..i])
        invariant listeners == old(listeners)
      {
        assert files[..i + 1][..i] == files[..i];
        var (name, command) := files[i];
        if EndsWith(name, ".js") {
          commands := commands[command.dataName := command];
        }
      }
      assert files[..|files|] == files;
    }

    /** The event loop: `once` when the module says so, `on` otherwise. */
    method RegisterEvents(files: seq<(string, EventModule)>)
      modifies this
      ensures listeners == old(listeners) + Listeners(files)
      ensures commands == old(commands)
    {
      for i := 0 to |files|
        invariant listeners == old(listeners) + Listeners(files[..i])
        invariant commands == old(commands)
      {
        assert files[..i + 1][..i] == files[..i];
        var (name, event) := files[i];
        if EndsWith(name, ".js") {
          if event.once {
            listeners := listeners + [Listener(event.name, Once)];
          } else {
            listeners := listeners + [Listener(event.name, On)];
          }
        }
      }
      assert files[..|files|] == files;
    }
  }

  /** The command the last `.js` file declaring `key` holds, if any. */
  function LastLoaded(files: seq<(string, CommandModule)>, key: string): Option<CommandModule> {
    LastSome(files, file => if Loads(file, key) then Some(file.1) else None)
  }

  /** A name is registered exactly when it was before or some `.js` file
      declares it; the last such file's command is the one kept, and a name
      no file declares keeps its earlier command. */
  lemma {:induction false} RegistryLookup(commands: map<string, CommandModule>, files: seq<(string, CommandModule)>, key: string)
    ensures key in Registry(commands, files) <==> key in commands || LastLoaded(files, key).Some?
    ensures LastLoaded(files, key).Some? ==> Registry(commands, files)[key] == LastLoaded(files, key).value
    ensures LastLoaded(files, key).None? && key in commands ==>
      Registry(commands, files)[key] == commands[key]
    decreases |files|
  {
    if files != [] {
      RegistryLookup(commands, files[..|files| - 1], key);
    }
  }

  /** `LastLoaded` is what its name says: there is one exactly when some
      `.js` file declares the name, and it is the last such file's command. */
  lemma LastLoadedSpec(files: seq<(string, CommandModule)>, key: string)
    ensures LastLoaded(files, key).None? <==> forall k | 0 <= k < |files| :: !Loads(files[k], key)
    ensures forall k | 0 <= k < |files| && Loads(files[k], key)
      && (forall j | k < j < |files| :: !Loads(files[j], key)) ::
        LastLoaded(files, key) == Some(files[k].1)
  {
    LastSomeSpec(files, file => if Loads(file, key) then Some(file.1) else None);
  }

  /** Files that are not `.js` are never loaded: adding one to the listing
      changes nothing. */
  lemma NonJsFileIgnored(commands: map<string, CommandModule>, files: seq<(string, CommandModule)>, name: string, command: CommandModule)
    requires !IsJsFile(name)
    ensures Registry(commands, files + [(name, command)]) == Registry(commands, files)
  {
    assert (files + [(name, command)])[..|files|] == files;
  }

  /** Every `.js` event file adds exactly one listener, in order, whose mode
      is `Once` exactly when the module's `once` flag is set; other files add
      none. */
  lemma {:induction false} ListenersSpec(files: seq<(string, EventModule)>, extra: (string, EventModule))
    ensures Listeners(files + [extra]) ==
      Listeners(files) + (if IsJsFile(extra.0) then [Listener(extra.1.name, if extra.1.once then Once else On)] else [])
    ensures ListenerFor(extra.1).mode == Once <==> extra.1.once
  {
    assert (files + [extra])[..|files|] == files;
  }

  /** How many of the files are `.js` files. */
  function JsCount<M>(files: seq<(string, M)>): nat
    decreases |files|
  {
    if files == [] then 0
    else JsCount(files[..|files| - 1]) + if IsJsFile(files[|files| - 1].0) then 1 else 0
  }

  /** The listeners in closed form: there is one per `.js` event file, and
      the `.js` file that has `n` other `.js` files before it holds position `n`. */
  lemma {:induction false} ListenerOfFile(files: seq<(string, EventModule)>, k: int)
    requires 0 <= k < |files| && IsJsFile(files[k].0)
    ensures |Listeners(files)| == JsCount(files)
    ensures JsCount(files[..k]) < |Listeners(files)|
    ensures Listeners(files)[JsCount(files[..k])] == ListenerFor(files[k].1)
    decreases |files|
  {
    var n := |files| - 1;
    var init := files[..n];
    ListenersLength(init);
    if k == n {
      assert files[..k] == init;
    } else {
      assert init[k] == files[k];
      assert init[..k] == files[..k];
      ListenerOfFile(init, k);
    }
  }

  /** There are as many listeners as `.js` event files. */
  lemma {:induction false} ListenersLength(files: seq<(string, EventModule)>)
    ensures |Listeners(files)| == JsCount(files)
    decreases |files|
  {
    if files != [] {
      ListenersLength(files[..|files| - 1]);
    }
  }

  /** The number of listeners is the number of `.js` event files. */
  lemma {:induction false} ListenersCount(files: seq<(string, EventModule)>)
    ensures |Listeners(files)| == |set k | 0 <= k < |files| && IsJsFile(files[k].0)|
    decreases |files|
  {
    if files != [] {
      var n := |files| - 1;
      var init := files[..n];
      ListenersCount(init);
      var before := set k | 0 <= k < n && IsJsFile(init[k].0);
      var after := set k | 0 <= k < |files| && IsJsFile(files[k].0);
      assert forall k | 0 <= k < n :: init[k] == files[k];
      if IsJsFile(files[n].0) {
        assert after == before + {n};
      } else {
        assert after == before;
      }
    }
  }
}
