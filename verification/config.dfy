/** The option resolvers of `src/config.rs`: optional fields supplied by
    the caller are merged over fixed defaults. */
module Config {
  import opened Wrappers

  /** Rust's `u32`, the width of the caller-supplied concurrency. */
  newtype U32 = x: int | 0 <= x < 0x1_0000_0000

  const DefaultCwd: string := "."
  const DefaultGitignore: bool := true
  const DefaultConcurrency: nat := 4

  /** Options as the caller passes them; every field may be absent. */
  datatype PartialHashGlobOptions = PartialHashGlobOptions(cwd: Option<string>, gitignore: Option<bool>)

  /** Fully resolved options of the serial walk. */
  datatype HashGlobOptions = HashGlobOptions(cwd: string, gitignore: bool)

  /** Options of the parallel walk as the caller passes them. */
  datatype PartialHashGlobParallelOptions =
    PartialHashGlobParallelOptions(cwd: Option<string>, gitignore: Option<bool>, concurrency: Option<U32>)

  /** Fully resolved options of the parallel walk. */
  datatype HashGlobParallelOptions = HashGlobParallelOptions(cwd: string, gitignore: bool, concurrency: nat)

  /** The serial resolver: each supplied field replaces its default, each
      absent field keeps it, and the two fields are resolved independently. */
  function GetHashGlobConfig(maybeOptions: Option<PartialHashGlobOptions>): (r: HashGlobOptions)
    ensures maybeOptions.None? ==> r == HashGlobOptions(".", true)
    ensures maybeOptions.Some? && maybeOptions.value.cwd.Some? ==> r.cwd == maybeOptions.value.cwd.value
    ensures (maybeOptions.None? || maybeOptions.value.cwd.None?) ==> r.cwd == "."
    ensures maybeOptions.Some? && maybeOptions.value.gitignore.Some? ==> r.gitignore == maybeOptions.value.gitignore.value
    ensures (maybeOptions.None? || maybeOptions.value.gitignore.None?) ==> r.gitignore
  {
    var options := HashGlobOptions(DefaultCwd, DefaultGitignore);
    match maybeOptions
    case None => options
    case Some(passed) =>
      var withCwd := if passed.cwd.Some? then options.(cwd := passed.cwd.value) else options;
      if passed.gitignore.Some? then withCwd.(gitignore := passed.gitignore.value) else withCwd
  }

  /** The cwd and gitignore fields of the parallel options, as serial options. */
  function SerialPart(maybeOptions: Option<PartialHashGlobParallelOptions>): Option<PartialHashGlobOptions>
  {
    match maybeOptions
    case None => None
    case Some(p) => Some(PartialHashGlobOptions(p.cwd, p.gitignore))
  }

  /** The parallel resolver: cwd and gitignore resolve as in the serial
      resolver, and the concurrency is always the default 4, because the
      caller's `concurrency` field is never read. */
  function GetHashGlobParallelConfig(maybeOptions: Option<PartialHashGlobParallelOptions>): (r: HashGlobParallelOptions)
    ensures r.concurrency == 4
    ensures r.cwd == GetHashGlobConfig(SerialPart(maybeOptions)).cwd
    ensures r.gitignore == GetHashGlobConfig(SerialPart(maybeOptions)).gitignore
  {
    var options := HashGlobParallelOptions(DefaultCwd, DefaultGitignore, DefaultConcurrency);
    match maybeOptions
    case None => options
    case Some(passed) =>
      var withCwd := if passed.cwd.Some? then options.(cwd := passed.cwd.value) else options;
      if passed.gitignore.Some? then withCwd.(gitignore := passed.gitignore.value) else withCwd
  }

  /** Two requests that differ only in their concurrency resolve to the
      same options. */
  lemma ConcurrencyNeverConsulted(p: PartialHashGlobParallelOptions, c: Option<U32>)
    ensures GetHashGlobParallelConfig(Some(p)) == GetHashGlobParallelConfig(Some(p.(concurrency := c)))
  {
  }

  /** Supplying a single field leaves the other at its default. */
  lemma FieldsResolvedIndependently(cwd: string, gitignore: bool)
    ensures GetHashGlobConfig(Some(PartialHashGlobOptions(Some(cwd), None))) == HashGlobOptions(cwd, true)
    ensures GetHashGlobConfig(Some(PartialHashGlobOptions(None, Some(gitignore)))) == HashGlobOptions(".", gitignore)
    ensures GetHashGlobConfig(Some(PartialHashGlobOptions(None, None))) == GetHashGlobConfig(None)
  {
  }
}
