/** The edit `--fix` makes to the allowlist, and the lockfile scan it relies on. */
module DenyFix {
  import opened Wrappers
  import opened Text
  import opened DenyPins

  // ------------------------------------------------------------- lockfile

  const NAME_KEY := "name = "
  const VERSION_KEY := "version = "

  predicate IsName(line: string) { HasPrefix(line, NAME_KEY) }

  predicate IsVersion(line: string) { HasPrefix(line, VERSION_KEY) }

  function Unquoted(s: string): string { TrimEnd(TrimStart(s, IsQuote), IsQuote) }

  function Name(line: string): string
    requires IsName(line)
  {
    Unquoted(line[|NAME_KEY|..])
  }

  function Version(line: string): string
    requires IsVersion(line)
  {
    Unquoted(line[|VERSION_KEY|..])
  }

  /** The position of the name still waiting for its version after `n` lines. */
  predicate Pending(lines: seq<string>, n: int, i: int) {
    && 0 <= i < n <= |lines|
    && IsName(lines[i])
    && forall k :: i < k < n ==> !IsName(lines[k]) && !IsVersion(lines[k])
  }

  /** A version line whose nearest name or version line above is this name. */
  predicate PackageAt(lines: seq<string>, i: int, j: int) {
    0 <= j < |lines| && IsVersion(lines[j]) && Pending(lines, j, i)
  }

  function PinAt(lines: seq<string>, i: int, j: int): string
    requires PackageAt(lines, i, j)
  {
    Name(lines[i]) + "@" + Version(lines[j])
  }

  lemma PendingAfterOneMore(lines: seq<string>, n: nat, i: int)
    requires n < |lines|
    ensures Pending(lines, n + 1, i) <==>
      (i == n && IsName(lines[n])) || (Pending(lines, n, i) && !IsName(lines[n]) && !IsVersion(lines[n]))
  {}

  /** The only pending name, before and after one more line. */
  ghost predicate OnlyPending(lines: seq<string>, n: int, waiting: bool, at: int) {
    forall i :: Pending(lines, n, i) <==> waiting && i == at
  }

  lemma PendingMoves(lines: seq<string>, n: nat, waiting: bool, at: int)
    requires n < |lines| && OnlyPending(lines, n, waiting, at)
    ensures OnlyPending(lines, n + 1, IsName(lines[n]) || (waiting && !IsVersion(lines[n])), if IsName(lines[n]) then n else at)
  {
    hide Pending;
    var m := n + 1;
    var waiting' := IsName(lines[n]) || (waiting && !IsVersion(lines[n]));
    var at' := if IsName(lines[n]) then n else at;
    forall i ensures Pending(lines, m, i) <==> waiting' && i == at' {
      PendingAfterOneMore(lines, n, i);
      assert Pending(lines, n, i) <==> waiting && i == at;
    }
  }

  /** The pin of a package whose version line is among the first `n`. */
  ghost predicate Listed(lines: seq<string>, n: int, pin: string) {
    exists i, j :: PackageAt(lines, i, j) && j < n && PinAt(lines, i, j) == pin
  }

  lemma ListedAfterOneMore(lines: seq<string>, n: nat, waiting: bool, at: int, pin: string)
    requires n < |lines| && OnlyPending(lines, n, waiting, at)
    ensures Listed(lines, n + 1, pin) <==>
      Listed(lines, n, pin) || (IsVersion(lines[n]) && waiting && Pending(lines, n, at) && pin == Name(lines[at]) + "@" + Version(lines[n]))
  {
    if Listed(lines, n + 1, pin) {
      var i, j :| PackageAt(lines, i, j) && j < n + 1 && PinAt(lines, i, j) == pin;
      assert j == n ==> Pending(lines, n, i) && i == at;
    }
    if IsVersion(lines[n]) && waiting {
      assert Pending(lines, n, at) && PackageAt(lines, at, n);
    }
  }

  lemma NameIsNotVersion(line: string)
    ensures !(IsName(line) && IsVersion(line))
  {
    if IsName(line) { assert line[0] == line[..|NAME_KEY|][0] == 'n'; }
    if IsVersion(line) { assert line[0] == line[..|VERSION_KEY|][0] == 'v'; }
  }

  /** The lockfile has a package block with this name and version. */
  ghost predicate Resolves(lockfile: string, pin: string) { Listed(Lines(lockfile), |Lines(lockfile)|, pin) }

  function ResolvedPins(lockfile: string): (pins: set<string>)
    ensures forall pin :: pin in pins <==> Resolves(lockfile, pin)
  {
    var lines := Lines(lockfile);
    set i, j | 0 <= i < |lines| && 0 <= j < |lines| && PackageAt(lines, i, j) :: PinAt(lines, i, j)
  }

  /** `resolved_versions`: returns the pin of every package block, and nothing else. */
  method ResolvedVersions(lockfile: string) returns (resolved: set<string>)
    ensures forall pin :: pin in resolved <==> Resolves(lockfile, pin)
    ensures resolved == ResolvedPins(lockfile)
  {
    var lines := Lines(lockfile);
    resolved := {};
    var name: Option<string> := None;
    ghost var at := 0;
    var n := 0;
    while n < |lines|
      invariant n <= |lines|
      invariant OnlyPending(lines, n, name.Some?, at)
      invariant name.Some? ==> Pending(lines, n, at) && name.value == Name(lines[at])
      invariant forall pin :: pin in resolved <==> Listed(lines, n, pin)
    {
      hide Pending, Listed;
      var line := lines[n];
      NameIsNotVersion(line);
      PendingMoves(lines, n, name.Some?, at);
      var m := n + 1;
      forall pin ensures Listed(lines, m, pin) <==> Listed(lines, n, pin) || (IsVersion(line) && name.Some? && pin == name.value + "@" + Version(line)) {
        ListedAfterOneMore(lines, n, name.Some?, at, pin);
      }
      if IsName(line) {
        name := Some(Name(line));
        at := n;
      } else if IsVersion(line) {
        if name.Some? {
          resolved := resolved + {name.value + "@" + Version(line)};
          name := None;
        }
      }
      n := m;
    }
  }

  // ------------------------------------------------------------------ fix

  datatype Crate = Crate(name: string, version: string)

  function Pin(c: Crate): string { c.name + "@" + c.version }

  /** What `cargo deny` rejects: resolved build-script crates without a pin. */
  function Deny(build: set<Crate>, pinned: set<string>): set<Crate> {
    set c | c in build && Pin(c) !in pinned
  }

  /** The pin's crate is among the offenders' names. */
  predicate NamesAnOffender(pin: string, offenders: set<Crate>) {
    SplitOnce(pin, "@").Some? && exists c :: c in offenders && c.name == SplitOnce(pin, "@").value.0
  }

  function Displaced(pinned: set<string>, offenders: set<Crate>, resolved: set<string>): set<string> {
    set pin | pin in pinned && NamesAnOffender(pin, offenders) && pin !in resolved
  }

  function Apply(pinned: set<string>, offenders: set<Crate>, displaced: set<string>): set<string> {
    (pinned - displaced) + (set c | c in offenders :: Pin(c))
  }

  function Fixed(build: set<Crate>, pinned: set<string>, resolved: set<string>): set<string> {
    var offenders := Deny(build, pinned);
    Apply(pinned, offenders, Displaced(pinned, offenders, resolved))
  }

  /** One application leaves no offender exactly when the scan missed no pinned
      build crate that shares its name with an offender. */
  lemma FixLeavesNoOffenderExactly(build: set<Crate>, pinned: set<string>, resolved: set<string>)
    ensures Deny(build, Fixed(build, pinned, resolved)) == {} <==>
      forall c <- build :: Pin(c) in pinned && NamesAnOffender(Pin(c), Deny(build, pinned)) ==> Pin(c) in resolved
  {
    var offenders := Deny(build, pinned);
    var updated := Fixed(build, pinned, resolved);
    forall c | c in build
      ensures Pin(c) in updated <==> !(Pin(c) in pinned && NamesAnOffender(Pin(c), offenders)) || Pin(c) in resolved
    {
      if Pin(c) !in pinned { assert c in offenders; }
      if Pin(c) in pinned { assert forall o <- offenders :: Pin(o) != Pin(c); }
    }
    if forall c <- build :: Pin(c) in updated {
      assert Deny(build, updated) == {};
    }
    if Deny(build, updated) == {} {
      forall c | c in build ensures Pin(c) in updated {
        assert c !in Deny(build, updated);
      }
    }
  }

  /** No pin that still resolves is dropped, no unrelated pin is touched, and
      only offenders are added. */
  lemma FixKeepsLivePins(build: set<Crate>, pinned: set<string>, resolved: set<string>)
    ensures forall pin :: pin in pinned && (pin in resolved || !NamesAnOffender(pin, Deny(build, pinned))) ==> pin in Fixed(build, pinned, resolved)
    ensures forall pin :: pin in Fixed(build, pinned, resolved) ==> pin in pinned || exists c :: c in build && Pin(c) == pin
  {}

  /** The whole command with `--fix`: no offender, no write. */
  ghost function Fix(manifest: string, build: set<Crate>, resolved: set<string>): Result<string, PinError> {
    match ParsePins(manifest)
    case Err(e) => Err(e)
    case Ok(pinned) =>
      if Deny(build, pinned) == {} then Ok(manifest)
      else Rewrite(manifest, Fixed(build, pinned, resolved))
  }

  /** On any manifest with a closed list, one run leaves a file that pins every
      build crate, keeps every pin that resolves, and that a second run leaves alone. */
  lemma FixConverges(manifest: string, build: set<Crate>, resolved: set<string>)
    requires ParsePins(manifest).Ok?
    requires forall c <- build :: WellFormed(Pin(c)) && Pin(c) in resolved
    ensures Fix(manifest, build, resolved).Ok?
    ensures var once := Fix(manifest, build, resolved).value;
      var pinned := ParsePins(manifest).value;
      && ParsePins(once) == Ok(if Deny(build, pinned) == {} then pinned else Fixed(build, pinned, resolved))
      && Deny(build, ParsePins(once).value) == {}
      && (forall pin <- pinned :: pin in resolved ==> pin in ParsePins(once).value)
      && Fix(once, build, resolved) == Ok(once)
  {
    var pinned := ParsePins(manifest).value;
    if Deny(build, pinned) != {} {
      var updated := Fixed(build, pinned, resolved);
      PinsAreWellFormed(ListIn(manifest).value.1);
      FixKeepsLivePins(build, pinned, resolved);
      RoundTripExactly(manifest, updated);
      FixLeavesNoOffenderExactly(build, pinned, resolved);
    }
  }

  predicate NoQuotes(s: string) { OneLine(s) && (s != "" ==> !IsQuote(s[0]) && !IsQuote(s[|s| - 1])) }

  lemma UnquotedHasNoQuotes(s: string)
    requires OneLine(s)
    ensures NoQuotes(Unquoted(s))
  {
    hide TrimStart, TrimEnd, OneLine;
    var open := TrimStart(s, IsQuote);
    TrimKeepsOneLine(s, IsQuote);
    TrimKeepsOneLine(open, IsQuote);
    TrimStartShape(s, IsQuote);
    TrimEndShape(open, IsQuote);
    assert Unquoted(s) != "" ==> Unquoted(s)[0] == open[0];
  }

  lemma NameHasNoQuotes(line: string)
    requires IsName(line) && OneLine(line)
    ensures NoQuotes(Name(line))
  {
    hide Unquoted;
    StretchIsOneLine(line, |NAME_KEY|, |line|);
    UnquotedHasNoQuotes(line[|NAME_KEY|..]);
  }

  lemma VersionHasNoQuotes(line: string)
    requires IsVersion(line) && OneLine(line)
    ensures NoQuotes(Version(line))
  {
    hide Unquoted;
    StretchIsOneLine(line, |VERSION_KEY|, |line|);
    UnquotedHasNoQuotes(line[|VERSION_KEY|..]);
  }

  lemma JoinedPinIsWellFormed(name: string, version: string)
    requires NoQuotes(name) && NoQuotes(version)
    ensures WellFormed(name + "@" + version)
  {}

  /** What the scan returns can be written to the manifest and read back. */
  lemma ResolvedPinsAreWellFormed(lockfile: string, pin: string)
    requires Resolves(lockfile, pin)
    ensures WellFormed(pin)
  {
    hide Name, Version, IsName, IsVersion, NoQuotes, WellFormed;
    var lines := Lines(lockfile);
    var i, j :| PackageAt(lines, i, j) && j < |lines| && PinAt(lines, i, j) == pin;
    assert OneLine(lines[i]) && OneLine(lines[j]);
    NameHasNoQuotes(lines[i]);
    VersionHasNoQuotes(lines[j]);
    JoinedPinIsWellFormed(Name(lines[i]), Version(lines[j]));
  }

  /** From the two files: whenever the lockfile resolves every build crate, one
      run on any manifest with a closed list is final. */
  lemma LockfileFixConverges(manifest: string, build: set<Crate>, lockfile: string)
    requires ParsePins(manifest).Ok?
    requires forall c <- build :: Resolves(lockfile, Pin(c))
    ensures Fix(manifest, build, ResolvedPins(lockfile)).Ok?
    ensures var once := Fix(manifest, build, ResolvedPins(lockfile)).value;
      && ParsePins(once).Ok?
      && Deny(build, ParsePins(once).value) == {}
      && (forall pin <- ParsePins(manifest).value :: Resolves(lockfile, pin) ==> pin in ParsePins(once).value)
      && Fix(once, build, ResolvedPins(lockfile)) == Ok(once)
  {
    hide ParsePins, Resolves, WellFormed;
    forall c | c in build ensures WellFormed(Pin(c)) { ResolvedPinsAreWellFormed(lockfile, Pin(c)); }
    FixConverges(manifest, build, ResolvedPins(lockfile));
  }
}
