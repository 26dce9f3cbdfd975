/**
  Filling the command-line arguments from a configuration file. The command
  line takes precedence: a text or number field is taken from the file only
  when the command line left it unset, and a flag is switched on when either
  side switches it on. Reading and parsing the file are not modelled; what
  they produced is given as a ConfigFile value.
 */
module Config {

  datatype Option<T> = None | Some(value: T)

  /** The settings a configuration file may hold; each one may be missing. */
  datatype FileConfig = FileConfig(random: Option<bool>, difficult: Option<bool>, stats: Option<bool>,
                                   day: Option<int>, seed: Option<nat>,
                                   finalSet: Option<string>, acceptableSet: Option<string>,
                                   state: Option<string>, word: Option<string>)

  /**
    What reading the configuration file produced: it could not be opened,
    could not be read, held just "{}", did not parse, or parsed.
   */
  datatype ConfigFile = CannotOpen | CannotRead | EmptyObject | Unparsable | Parsed(config: FileConfig)

  /** The values of the program's argument record. */
  datatype ArgValues = ArgValues(word: Option<string>, random: bool, difficult: bool, stats: bool,
                                 seed: Option<nat>, day: Option<int>,
                                 finalSet: Option<string>, acceptableSet: Option<string>,
                                 state: Option<string>)

  /** An empty string from the file counts as no value at all; any other value is kept. */
  function StringToOption(s: Option<string>): (r: Option<string>)
    ensures r == None <==> s == None || s == Some("")
    ensures r != None ==> r == s
  {
    match s
    case Some(text) => if text == "" then None else s
    case None => None
  }

  /** A text field: the file's value, made unset when empty, fills the field only when it is unset. */
  function FillText(current: Option<string>, fromFile: Option<string>): Option<string> {
    if fromFile.Some? && current == None then StringToOption(fromFile) else current
  }

  /** A number field: the file's value fills the field only when it is unset. */
  function FillNumber<T>(current: Option<T>, fromFile: Option<T>): Option<T> {
    if fromFile.Some? && current == None then fromFile else current
  }

  /** A flag: switched on by the file's value or the command line's. */
  function FillFlag(current: bool, fromFile: Option<bool>): bool {
    if fromFile.Some? then fromFile.value || current else current
  }

  /** The argument values after a parsed configuration has been merged in. */
  function WithFile(a: ArgValues, c: FileConfig): ArgValues {
    ArgValues(FillText(a.word, c.word),
              FillFlag(a.random, c.random),
              FillFlag(a.difficult, c.difficult),
              FillFlag(a.stats, c.stats),
              FillNumber(a.seed, c.seed),
              FillNumber(a.day, c.day),
              FillText(a.finalSet, c.finalSet),
              FillText(a.acceptableSet, c.acceptableSet),
              FillText(a.state, c.state))
  }

  /** The argument values after loading: only a parsed file changes anything. */
  function Applied(a: ArgValues, file: ConfigFile): ArgValues {
    if file.Parsed? then WithFile(a, file.config) else a
  }

  /** The program's argument record, filled from the command line and then from the configuration file. */
  class Arguments {
    var word: Option<string>
    var random: bool
    var difficult: bool
    var stats: bool
    var seed: Option<nat>
    var day: Option<int>
    var finalSet: Option<string>
    var acceptableSet: Option<string>
    var state: Option<string>

    function Values(): ArgValues
      reads this
    {
      ArgValues(word, random, difficult, stats, seed, day, finalSet, acceptableSet, state)
    }

    constructor (v: ArgValues)
      ensures Values() == v
    {
      word, random, difficult, stats := v.word, v.random, v.difficult, v.stats;
      seed, day := v.seed, v.day;
      finalSet, acceptableSet, state := v.finalSet, v.acceptableSet, v.state;
    }
  }

  /**
    Loads the configuration into args, field by field in the program's
    order. A file that could not be opened, read or parsed, or that holds
    "{}", leaves args as it was.
   */
  method Load(file: ConfigFile, args: Arguments)
    modifies args
    ensures args.Values() == Applied(old(args.Values()), file)
  {
    match file
    case Parsed(config) =>
      LoadWord(config, args);
      LoadFlags(config, args);
      LoadNumbers(config, args);
      LoadPaths(config, args);
    case _ =>
  }

  /** The answer word: taken from the file only when the command line gave none. */
  method LoadWord(config: FileConfig, args: Arguments)
    modifies args
    ensures args.Values() == old(args.Values()).(word := FillText(old(args.word), config.word))
  {
    if config.word.Some? {
      if args.word == None {
        args.word := StringToOption(Some(config.word.value));
      }
    }
  }

  /** The three flags: each is switched on by the file or by the command line. */
  method LoadFlags(config: FileConfig, args: Arguments)
    modifies args
    ensures args.Values() == old(args.Values()).(difficult := FillFlag(old(args.difficult), config.difficult),
                                                 random := FillFlag(old(args.random), config.random),
                                                 stats := FillFlag(old(args.stats), config.stats))
  {
    if config.difficult.Some? {
      args.difficult := config.difficult.value || args.difficult;
    }
    if config.random.Some? {
      args.random := config.random.value || args.random;
    }
    if config.stats.Some? {
      args.stats := config.stats.value || args.stats;
    }
  }

  /** The day and the seed: taken from the file only when the command line gave none. */
  method LoadNumbers(config: FileConfig, args: Arguments)
    modifies args
    ensures args.Values() == old(args.Values()).(day := FillNumber(old(args.day), config.day),
                                                 seed := FillNumber(old(args.seed), config.seed))
  {
    if config.day.Some? {
      if args.day == None {
        args.day := Some(config.day.value);
      }
    }
    if config.seed.Some? {
      if args.seed == None {
        args.seed := Some(config.seed.value);
      }
    }
  }

  /** The two word-list files and the state file: taken from the file only when the command line gave none. */
  method LoadPaths(config: FileConfig, args: Arguments)
    modifies args
    ensures args.Values() == old(args.Values()).(finalSet := FillText(old(args.finalSet), config.finalSet),
                                                 acceptableSet := FillText(old(args.acceptableSet), config.acceptableSet),
                                                 state := FillText(old(args.state), config.state))
  {
    if config.finalSet.Some? {
      if args.finalSet == None {
        args.finalSet := StringToOption(Some(config.finalSet.value));
      }
    }
    if config.acceptableSet.Some? {
      if args.acceptableSet == None {
        args.acceptableSet := StringToOption(Some(config.acceptableSet.value));
      }
    }
    if config.state.Some? {
      if args.state == None {
        args.state := StringToOption(Some(config.state.value));
      }
    }
  }

  /** Applying the empty-string filter twice is the same as once. */
  lemma StringToOptionIdempotent(s: Option<string>)
    ensures StringToOption(StringToOption(s)) == StringToOption(s)
  {
  }

  /** Every value given on the command line survives the merge, and a flag switched on stays on. */
  lemma CommandLineWins(a: ArgValues, file: ConfigFile)
    ensures var r := Applied(a, file);
            (a.word != None ==> r.word == a.word) &&
            (a.seed != None ==> r.seed == a.seed) &&
            (a.day != None ==> r.day == a.day) &&
            (a.finalSet != None ==> r.finalSet == a.finalSet) &&
            (a.acceptableSet != None ==> r.acceptableSet == a.acceptableSet) &&
            (a.state != None ==> r.state == a.state) &&
            (a.random ==> r.random) && (a.difficult ==> r.difficult) && (a.stats ==> r.stats)
  {
  }

  /**
    A field the command line left unset takes the file's value; a text value
    that is empty leaves it unset. A flag ends up on exactly when either side
    switched it on.
   */
  lemma FileFillsUnset(a: ArgValues, c: FileConfig)
    ensures var r := WithFile(a, c);
            (a.word == None ==> r.word == StringToOption(c.word)) &&
            (a.finalSet == None ==> r.finalSet == StringToOption(c.finalSet)) &&
            (a.acceptableSet == None ==> r.acceptableSet == StringToOption(c.acceptableSet)) &&
            (a.state == None ==> r.state == StringToOption(c.state)) &&
            (a.seed == None ==> r.seed == c.seed) &&
            (a.day == None ==> r.day == c.day) &&
            (r.random <==> a.random || c.random == Some(true)) &&
            (r.difficult <==> a.difficult || c.difficult == Some(true)) &&
            (r.stats <==> a.stats || c.stats == Some(true))
  {
  }

  /** A setting missing from the file leaves its field as it was; so does a file that was not parsed. */
  lemma MissingLeavesUnchanged(a: ArgValues, file: ConfigFile)
    ensures !file.Parsed? ==> Applied(a, file) == a
    ensures file.Parsed? ==>
              var c := file.config;
              var r := Applied(a, file);
              (c.word == None ==> r.word == a.word) &&
              (c.seed == None ==> r.seed == a.seed) &&
              (c.day == None ==> r.day == a.day) &&
              (c.finalSet == None ==> r.finalSet == a.finalSet) &&
              (c.acceptableSet == None ==> r.acceptableSet == a.acceptableSet) &&
              (c.state == None ==> r.state == a.state) &&
              (c.random == None ==> r.random == a.random) &&
              (c.difficult == None ==> r.difficult == a.difficult) &&
              (c.stats == None ==> r.stats == a.stats)
  {
  }

  /** The file never introduces an empty text value. */
  lemma NoEmptyFromFile(a: ArgValues, file: ConfigFile)
    ensures var r := Applied(a, file);
            (r.word == Some("") ==> a.word == Some("")) &&
            (r.finalSet == Some("") ==> a.finalSet == Some("")) &&
            (r.acceptableSet == Some("") ==> a.acceptableSet == Some("")) &&
            (r.state == Some("") ==> a.state == Some(""))
  {
  }

  /** Loading the same configuration a second time changes nothing more. */
  lemma LoadIdempotent(a: ArgValues, file: ConfigFile)
    ensures Applied(Applied(a, file), file) == Applied(a, file)
  {
  }
}
