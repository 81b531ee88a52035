/** The hosting options read from configuration when a web host is built: the
    application name, the hosting-startup assembly lists and the shutdown timeout. */
module WebHostOptions {
  import opened Outcomes
  import opened Text
  import Decimal

  // ---------------------------------------------------------------------------
  // Splitting on ';'

  /** `String.Split(';')`: the pieces between separators, empty ones included. */
  function Segments(s: string): (r: seq<string>)
    ensures |r| > 0
    ensures NoSeparators(r)
    decreases |s|
  {
    if s == [] then [""]
    else
      var rest := Segments(s[1..]);
      if s[0] == ';' then [""] + rest else [[s[0]] + rest[0]] + rest[1..]
  }

  /** The pieces joined back with ';' between them; `Join([]) == ""`. */
  function Join(xs: seq<string>): string
    decreases |xs|
  {
    if |xs| == 0 then ""
    else if |xs| == 1 then xs[0]
    else xs[0] + ";" + Join(xs[1..])
  }

  /** Splitting loses nothing: the separators go back between the pieces. */
  lemma {:induction false} JoinSegments(s: string)
    ensures Join(Segments(s)) == s
    decreases |s|
  {
    if s != [] {
      JoinSegments(s[1..]);
      var rest := Segments(s[1..]);
      if s[0] == ';' {
        assert Join([""] + rest) == "" + ";" + Join(rest);
      } else {
        var r := [[s[0]] + rest[0]] + rest[1..];
        if |rest| == 1 {
          assert r == [[s[0]] + rest[0]];
        } else {
          assert r[1..] == rest[1..];
          assert Join(rest) == rest[0] + ";" + Join(rest[1..]);
        }
      }
    }
  }

  /** Splitting at the first separator: the part before it is one segment. */
  lemma {:induction false} SegmentsAppend(a: string, b: string)
    requires ';' !in a
    ensures Segments(a + ";" + b) == [a] + Segments(b)
    decreases |a|
  {
    if a == [] {
      assert a + ";" + b == [';'] + b;
      assert (a + ";" + b)[1..] == b;
    } else {
      var s := a + ";" + b;
      assert s[1..] == a[1..] + ";" + b;
      SegmentsAppend(a[1..], b);
      assert [a[0]] + a[1..] == a;
    }
  }

  /** Splitting is the inverse of joining pieces that hold no separator. */
  lemma {:induction false} SegmentsJoin(xs: seq<string>)
    requires |xs| > 0
    requires NoSeparators(xs)
    ensures Segments(Join(xs)) == xs
    decreases |xs|
  {
    if |xs| == 1 {
      SegmentsNoSeparator(xs[0]);
    } else {
      SegmentsJoin(xs[1..]);
      SegmentsAppend(xs[0], Join(xs[1..]));
    }
  }

  /** A string without a separator is a single segment. */
  lemma {:induction false} SegmentsNoSeparator(s: string)
    requires ';' !in s
    ensures Segments(s) == [s]
    decreases |s|
  {
    if s != [] {
      SegmentsNoSeparator(s[1..]);
      assert [s[0]] + s[1..] == s;
    }
  }

  /** Splitting distributes over a separator anywhere in the text. */
  lemma {:induction false} SegmentsConcat(a: string, b: string)
    ensures Segments(a + ";" + b) == Segments(a) + Segments(b)
    decreases |a|
  {
    if a == [] {
      assert a + ";" + b == [';'] + b;
      assert (a + ";" + b)[1..] == b;
    } else {
      var s := a + ";" + b;
      assert s[0] == a[0];
      assert s[1..] == a[1..] + ";" + b;
      SegmentsConcat(a[1..], b);
      var head := Segments(a[1..]);
      var rest := head + Segments(b);
      assert Segments(s[1..]) == rest;
      if a[0] == ';' {
        assert Segments(s) == [""] + rest;
        assert Segments(a) == [""] + head;
        Assoc([""], head, Segments(b));
      } else {
        assert rest[0] == head[0];
        assert rest[1..] == head[1..] + Segments(b);
        assert Segments(s) == [[a[0]] + head[0]] + rest[1..];
        assert Segments(a) == [[a[0]] + head[0]] + head[1..];
        Assoc([[a[0]] + head[0]], head[1..], Segments(b));
      }
    }
  }

  predicate NoSeparators(xs: seq<string>) {
    forall k :: 0 <= k < |xs| ==> ';' !in xs[k]
  }

  lemma NoSeparatorsTail(xs: seq<string>)
    requires |xs| > 0 && NoSeparators(xs)
    ensures NoSeparators(xs[1..])
  {
    forall k | 0 <= k < |xs| - 1 ensures ';' !in xs[1..][k] {
      assert xs[1..][k] == xs[k + 1];
    }
  }

  /** A usable list entry: non-empty, no separator, no white space at either end. */
  predicate IsEntry(e: string) {
    |e| > 0 && ';' !in e && IsTrimmed(e)
  }

  /** `StringSplitOptions.TrimEntries | RemoveEmptyEntries` applied to the segments:
      each segment is trimmed and those left empty are dropped, keeping the order. */
  function Entries(segments: seq<string>): (r: seq<string>)
    requires NoSeparators(segments)
    ensures AllEntries(r)
    ensures |r| <= |segments|
    decreases |segments|
  {
    if segments == [] then []
    else
      var t := Trim(segments[0]);
      NoSeparatorsTail(segments);
      var rest := Entries(segments[1..]);
      if t == [] then rest
      else
        TrimmedEntry(segments[0]);
        AllEntriesCons(t, rest);
        [t] + rest
  }

  /** A non-empty trimmed segment is an entry. */
  lemma TrimmedEntry(segment: string)
    requires ';' !in segment && Trim(segment) != []
    ensures IsEntry(Trim(segment))
  {
    if ';' in Trim(segment) { TrimKeepsCharacters(segment, ';'); }
  }

  lemma AllEntriesCons(e: string, xs: seq<string>)
    requires IsEntry(e) && AllEntries(xs)
    ensures AllEntries([e] + xs)
  {
    forall k | 0 <= k < |xs| + 1 ensures IsEntry(([e] + xs)[k]) {
      if k > 0 { assert ([e] + xs)[k] == xs[k - 1]; }
    }
  }

  lemma {:induction false} EntriesConcat(xs: seq<string>, ys: seq<string>)
    requires NoSeparators(xs) && NoSeparators(ys)
    ensures Entries(xs + ys) == Entries(xs) + Entries(ys)
    decreases |xs|
  {
    if xs == [] {
      assert xs + ys == ys;
    } else {
      assert (xs + ys)[0] == xs[0];
      assert (xs + ys)[1..] == xs[1..] + ys;
      NoSeparatorsTail(xs);
      EntriesConcat(xs[1..], ys);
    }
  }

  /** One segment contributes its trimmed text, or nothing when trimming leaves it
      empty; with `EntriesConcat` this determines `Entries` on every list of segments. */
  lemma EntriesSingleton(segment: string)
    requires ';' !in segment
    ensures Entries([segment]) == if Trim(segment) == [] then [] else [Trim(segment)]
  {
    assert [segment][1..] == [];
  }

  /** A string is an entry of the segments exactly when it is non-empty and is the
      trimmed text of one of them. */
  lemma {:induction false} EntriesMembers(segments: seq<string>, e: string)
    requires NoSeparators(segments)
    ensures e in Entries(segments) <==>
      e != [] && exists k :: 0 <= k < |segments| && e == Trim(segments[k])
    decreases |segments|
  {
    if segments != [] {
      var rest := segments[1..];
      NoSeparatorsTail(segments);
      EntriesMembers(rest, e);
      assert forall k :: 0 < k < |segments| ==> segments[k] == rest[k - 1];
      if e != [] && exists k :: 0 < k < |segments| && e == Trim(segments[k]) {
        var k :| 0 < k < |segments| && e == Trim(segments[k]);
        assert e == Trim(rest[k - 1]);
      }
      if e != [] && exists k :: 0 <= k < |rest| && e == Trim(rest[k]) {
        var k :| 0 <= k < |rest| && e == Trim(rest[k]);
        assert e == Trim(segments[k + 1]);
      }
    }
  }

  /** `Split(string? value)`: no entries for a missing value, otherwise the trimmed,
      non-empty ';'-separated entries in their order. */
  function Split(value: Option<string>): (r: seq<string>)
    ensures value.None? ==> r == []
    ensures AllEntries(r)
  {
    match value
    case None => []
    case Some(v) => Entries(Segments(v))
  }

  /** Splitting a list of clean entries joined by ';' gives the same list back. */
  lemma SplitJoin(xs: seq<string>)
    requires AllEntries(xs)
    ensures Split(Some(Join(xs))) == xs
  {
    if |xs| == 0 {
      assert Segments("") == [""];
      assert Trim("") == "";
      assert Entries([""]) == [];
    } else {
      EntriesOfEntries(xs);
      SegmentsJoin(xs);
      assert Split(Some(Join(xs))) == Entries(Segments(Join(xs)));
    }
  }

  predicate AllEntries(xs: seq<string>) {
    forall k :: 0 <= k < |xs| ==> IsEntry(xs[k])
  }

  lemma AllEntriesTail(xs: seq<string>)
    requires |xs| > 0 && AllEntries(xs)
    ensures AllEntries(xs[1..])
  {
    forall k | 0 <= k < |xs| - 1 ensures IsEntry(xs[1..][k]) {
      assert xs[1..][k] == xs[k + 1];
    }
  }

  lemma EntriesHaveNoSeparators(xs: seq<string>)
    requires AllEntries(xs)
    ensures NoSeparators(xs)
  {
    forall k | 0 <= k < |xs| ensures ';' !in xs[k] {
      assert IsEntry(xs[k]);
    }
  }

  lemma ConsTail<T>(xs: seq<T>)
    requires |xs| > 0
    ensures [xs[0]] + xs[1..] == xs
  {
  }

  lemma EntriesCons(xs: seq<string>)
    requires |xs| > 0 && NoSeparators(xs) && Trim(xs[0]) != []
    ensures NoSeparators(xs[1..])
    ensures Entries(xs) == [Trim(xs[0])] + Entries(xs[1..])
  {
    NoSeparatorsTail(xs);
  }

  lemma {:induction false} EntriesOfEntries(xs: seq<string>)
    requires AllEntries(xs)
    ensures NoSeparators(xs) && Entries(xs) == xs
    decreases |xs|
  {
    EntriesHaveNoSeparators(xs);
    if xs != [] {
      assert IsEntry(xs[0]);
      TrimTrimmed(xs[0]);
      AllEntriesTail(xs);
      EntriesOfEntries(xs[1..]);
      EntriesCons(xs);
      ConsTail(xs);
    }
  }

  /** Splitting text made of two parts joined by ';' splits each part on its own. */
  lemma SplitConcat(a: string, b: string)
    ensures Split(Some(a + ";" + b)) == Split(Some(a)) + Split(Some(b))
  {
    SegmentsConcat(a, b);
    EntriesConcat(Segments(a), Segments(b));
  }

  /** `Split(applicationName, environment)`: the application name alone (as given,
      not trimmed) when the configured list is missing or empty; otherwise the entries
      of "applicationName;environment". */
  function SplitWithApplication(applicationName: string, environment: Option<string>): (r: seq<string>)
    ensures environment.None? || environment == Some("") ==> r == [applicationName]
  {
    if environment.None? || environment.value == "" then [applicationName]
    else Split(Some(applicationName + ";" + environment.value))
  }

  /** The application name comes first: with a configured list the result is the
      application's own entries followed by the list's entries, and a clean application
      name is always the first element. */
  lemma ApplicationNameFirst(applicationName: string, environment: Option<string>)
    ensures environment.Some? && environment.value != "" ==>
      SplitWithApplication(applicationName, environment)
        == Split(Some(applicationName)) + Split(environment)
    ensures IsEntry(applicationName) ==>
      var r := SplitWithApplication(applicationName, environment);
      |r| > 0 && r[0] == applicationName
  {
    if environment.Some? && environment.value != "" {
      SplitConcat(applicationName, environment.value);
    }
    if IsEntry(applicationName) {
      SplitJoin([applicationName]);
      if environment.Some? && environment.value != "" {
        SplitConcat(applicationName, environment.value);
      }
    }
  }

  // ---------------------------------------------------------------------------
  // Exclusion

  /** `Enumerable.Except` with `StringComparer.OrdinalIgnoreCase`: walks `xs` in order and
      yields each element whose folded key is not yet in `seen`, adding its key. */
  function ExceptFrom(xs: seq<string>, seen: set<string>): (r: seq<string>)
    ensures forall k :: 0 <= k < |r| ==> r[k] in xs && FoldCase(r[k]) !in seen
    ensures |r| <= |xs|
    decreases |xs|
  {
    if xs == [] then []
    else if FoldCase(xs[0]) in seen then ExceptFrom(xs[1..], seen)
    else [xs[0]] + ExceptFrom(xs[1..], seen + {FoldCase(xs[0])})
  }

  /** No two elements are equal ignoring case. */
  predicate DistinctIgnoringCase(r: seq<string>) {
    forall i, j :: 0 <= i < j < |r| ==> FoldCase(r[i]) != FoldCase(r[j])
  }

  /** No two results of `ExceptFrom` are equal ignoring case. */
  lemma {:induction false} ExceptFromDistinct(xs: seq<string>, seen: set<string>)
    ensures DistinctIgnoringCase(ExceptFrom(xs, seen))
    decreases |xs|
  {
    if xs != [] {
      var key := FoldCase(xs[0]);
      if key in seen {
        assert ExceptFrom(xs, seen) == ExceptFrom(xs[1..], seen);
        ExceptFromDistinct(xs[1..], seen);
      } else {
        ExceptFromDistinct(xs[1..], seen + {key});
        var rest := ExceptFrom(xs[1..], seen + {key});
        var r := [xs[0]] + rest;
        assert ExceptFrom(xs, seen) == r;
        forall i, j | 0 <= i < j < |r| ensures FoldCase(r[i]) != FoldCase(r[j]) {
          assert r[j] == rest[j - 1];
          assert FoldCase(rest[j - 1]) !in seen + {key};
          if i > 0 {
            assert r[i] == rest[i - 1];
            assert FoldCase(rest[i - 1]) != FoldCase(rest[j - 1]);
          }
        }
        assert DistinctIgnoringCase(r);
      }
    }
  }

  /** Every element of `xs` whose key was not already seen is represented, up to
      case, in the result of `ExceptFrom`. */
  lemma {:induction false} ExceptFromComplete(xs: seq<string>, seen: set<string>, x: string)
    requires x in xs && FoldCase(x) !in seen
    ensures var r := ExceptFrom(xs, seen);
      exists k :: 0 <= k < |r| && FoldCase(r[k]) == FoldCase(x)
    decreases |xs|
  {
    var key := FoldCase(xs[0]);
    if key in seen {
      assert ExceptFrom(xs, seen) == ExceptFrom(xs[1..], seen);
      assert x != xs[0] && x in xs[1..];
      ExceptFromComplete(xs[1..], seen, x);
    } else {
      var rest := ExceptFrom(xs[1..], seen + {key});
      var r := [xs[0]] + rest;
      assert ExceptFrom(xs, seen) == r;
      if FoldCase(x) == key {
        assert FoldCase(r[0]) == FoldCase(x);
      } else {
        assert x in xs[1..];
        ExceptFromComplete(xs[1..], seen + {key}, x);
        var k :| 0 <= k < |rest| && FoldCase(rest[k]) == FoldCase(x);
        assert r[k + 1] == rest[k];
      }
    }
  }

  /** The case-folded keys of a list. */
  function Keys(xs: seq<string>): set<string> {
    set x | x in xs :: FoldCase(x)
  }

  lemma KeysCons(x: string, xs: seq<string>)
    ensures Keys([x] + xs) == {FoldCase(x)} + Keys(xs)
  {
    forall key | key in Keys([x] + xs) ensures key in {FoldCase(x)} + Keys(xs) {
      var y :| y in [x] + xs && key == FoldCase(y);
      if y != x { assert y in xs; }
    }
    forall key | key in Keys(xs) ensures key in Keys([x] + xs) {
      var y :| y in xs && key == FoldCase(y);
      assert y in [x] + xs;
    }
    assert x in [x] + xs;
  }

  /** One element is yielded as written when its key was not seen yet, and dropped otherwise. */
  lemma ExceptFromSingleton(x: string, seen: set<string>)
    ensures ExceptFrom([x], seen) == if FoldCase(x) in seen then [] else [x]
  {
    assert [x][1..] == [];
  }

  /** The walk is left to right: the result for `xs + ys` is the result for `xs`, followed
      by the result for `ys` with the keys of `xs` already seen. With `ExceptFromSingleton`
      this fixes the order of the result and keeps the first spelling of each key. */
  lemma {:induction false} ExceptFromConcat(xs: seq<string>, ys: seq<string>, seen: set<string>)
    ensures ExceptFrom(xs + ys, seen) == ExceptFrom(xs, seen) + ExceptFrom(ys, seen + Keys(xs))
    decreases |xs|
  {
    if xs == [] {
      assert xs + ys == ys;
      assert Keys(xs) == {};
      assert seen + Keys(xs) == seen;
      assert ExceptFrom(xs, seen) == [];
    } else {
      var x, t := xs[0], xs[1..];
      var key := FoldCase(x);
      var seen' := if key in seen then seen else seen + {key};
      assert xs == [x] + t && xs + ys == [x] + (t + ys);
      assert seen' + Keys(t) == seen + Keys(xs) by {
        KeysCons(x, t);
      }
      ExceptFromConcat(t, ys, seen');
      ExceptFromCons(x, t + ys, seen);
      ExceptFromCons(x, t, seen);
      var right := ExceptFrom(ys, seen + Keys(xs));
      assert ExceptFrom(t + ys, seen') == ExceptFrom(t, seen') + right;
      if key in seen {
        assert ExceptFrom(xs + ys, seen) == ExceptFrom(t + ys, seen');
        assert ExceptFrom(xs, seen) == ExceptFrom(t, seen');
      } else {
        assert ExceptFrom(xs + ys, seen) == [x] + (ExceptFrom(t, seen') + right);
        assert ExceptFrom(xs, seen) == [x] + ExceptFrom(t, seen');
        Assoc([x], ExceptFrom(t, seen'), right);
      }
    }
  }

  lemma ExceptFromCons(x: string, rest: seq<string>, seen: set<string>)
    ensures ExceptFrom([x] + rest, seen)
      == if FoldCase(x) in seen then ExceptFrom(rest, seen) else [x] + ExceptFrom(rest, seen + {FoldCase(x)})
  {
    assert ([x] + rest)[1..] == rest;
  }

  /** `first.Except(second, StringComparer.OrdinalIgnoreCase)`: every result is an element
      of `first` that matches no element of `second` ignoring case. */
  function Except(first: seq<string>, second: seq<string>): (r: seq<string>)
    ensures |r| <= |first|
    ensures forall k :: 0 <= k < |r| ==>
      r[k] in first && forall x :: x in second ==> !EqualsIgnoreCase(r[k], x)
  {
    ExceptFrom(first, Keys(second))
  }

  /** The result of `Except` holds exactly the elements of `first` that match no element
      of `second` ignoring case, each only once (up to case), taken from `first` as written. */
  lemma ExceptCharacterization(first: seq<string>, second: seq<string>)
    ensures var r := Except(first, second);
      && (forall k :: 0 <= k < |r| ==> r[k] in first)
      && (forall k, x :: 0 <= k < |r| && x in second ==> !EqualsIgnoreCase(r[k], x))
      && (forall i, j :: 0 <= i < j < |r| ==> !EqualsIgnoreCase(r[i], r[j]))
      && (forall a :: a in first && (forall x :: x in second ==> !EqualsIgnoreCase(a, x)) ==>
            exists k :: 0 <= k < |r| && EqualsIgnoreCase(r[k], a))
  {
    var seen := Keys(second);
    var r := Except(first, second);
    assert r == ExceptFrom(first, seen);
    ExceptFromDistinct(first, seen);
    forall k, x | 0 <= k < |r| && x in second ensures !EqualsIgnoreCase(r[k], x) {
      assert FoldCase(x) in seen;
    }
    forall a | a in first && (forall x :: x in second ==> !EqualsIgnoreCase(a, x))
      ensures exists k :: 0 <= k < |r| && EqualsIgnoreCase(r[k], a)
    {
      assert FoldCase(a) !in seen;
      ExceptFromComplete(first, seen, a);
      var k :| 0 <= k < |r| && FoldCase(r[k]) == FoldCase(a);
      assert EqualsIgnoreCase(r[k], a);
    }
  }

  // ---------------------------------------------------------------------------
  // Configuration and the options record

  /** The configuration keys the options read (their names are `WebHostDefaults` constants). */
  datatype ConfigKey =
    | ApplicationKey
    | StartupAssemblyKey
    | EnvironmentKey
    | WebRootKey
    | ContentRootKey
    | HostingStartupAssembliesKey
    | HostingStartupExcludeAssembliesKey
    | ShutdownTimeoutKey

  /** `IConfiguration` as a lookup: a key with no value is absent. */
  type Configuration = map<ConfigKey, string>

  function Lookup(configuration: Configuration, key: ConfigKey): (r: Option<string>)
    ensures r.Some? <==> key in configuration
    ensures r.Some? ==> r.value == configuration[key]
  {
    if key in configuration then Some(configuration[key]) else None
  }

  /** Default shutdown timeout, in seconds. */
  const DefaultShutdownTimeoutSeconds: int := 5

  datatype Options = Options(
    applicationName: string,
    startupAssembly: Option<string>,
    environment: Option<string>,
    webRoot: Option<string>,
    contentRootPath: Option<string>,
    hostingStartupAssemblies: seq<string>,
    hostingStartupExcludeAssemblies: seq<string>,
    shutdownTimeoutSeconds: int)

  /** The shutdown timeout: the configured number of seconds when the text is a
      non-empty run of decimal digits whose value fits in an `int`, else the default. */
  function ShutdownTimeout(timeout: Option<string>): (r: int)
    ensures timeout.Some? && |timeout.value| > 0 && Decimal.AllDigits(timeout.value)
            && Decimal.Value(timeout.value) <= Decimal.MaxInt32
            ==> r == Decimal.Value(timeout.value)
    ensures !(timeout.Some? && |timeout.value| > 0 && Decimal.AllDigits(timeout.value)
              && Decimal.Value(timeout.value) <= Decimal.MaxInt32)
            ==> r == DefaultShutdownTimeoutSeconds
    ensures 0 <= r <= Decimal.MaxInt32
  {
    if timeout.Some? && timeout.value != "" && Decimal.TryParseInt32(timeout.value).Some? then
      Decimal.TryParseInt32(timeout.value).value
    else DefaultShutdownTimeoutSeconds
  }

  /** The `WebHostOptions(configuration, applicationNameFallback)` constructor. */
  function New(configuration: Option<Configuration>, applicationNameFallback: string): (r: Result<Options>)
    ensures configuration.None? <==> r.Failure?
    ensures r.Failure? ==> r.error == ArgumentNull("configuration")
    ensures r.Success? ==>
      var c := configuration.value;
      && (ApplicationKey in c ==> r.value.applicationName == c[ApplicationKey])
      && (ApplicationKey !in c ==> r.value.applicationName == applicationNameFallback)
      && (StartupAssemblyKey in c <==> r.value.startupAssembly.Some?)
      && (StartupAssemblyKey in c ==> r.value.startupAssembly.value == c[StartupAssemblyKey])
      && (EnvironmentKey in c <==> r.value.environment.Some?)
      && (EnvironmentKey in c ==> r.value.environment.value == c[EnvironmentKey])
      && (WebRootKey in c <==> r.value.webRoot.Some?)
      && (WebRootKey in c ==> r.value.webRoot.value == c[WebRootKey])
      && (ContentRootKey in c <==> r.value.contentRootPath.Some?)
      && (ContentRootKey in c ==> r.value.contentRootPath.value == c[ContentRootKey])
      && r.value.hostingStartupAssemblies
           == SplitWithApplication(r.value.applicationName, Lookup(c, HostingStartupAssembliesKey))
      && r.value.hostingStartupExcludeAssemblies == Split(Lookup(c, HostingStartupExcludeAssembliesKey))
      && (HostingStartupExcludeAssembliesKey !in c ==> r.value.hostingStartupExcludeAssemblies == [])
      && r.value.shutdownTimeoutSeconds == ShutdownTimeout(Lookup(c, ShutdownTimeoutKey))
      && (ShutdownTimeoutKey !in c ==> r.value.shutdownTimeoutSeconds == DefaultShutdownTimeoutSeconds)
  {
    match configuration
    case None => Failure(ArgumentNull("configuration"))
    case Some(c) =>
      var applicationName := Lookup(c, ApplicationKey).GetOr(applicationNameFallback);
      Success(Options(
        applicationName,
        Lookup(c, StartupAssemblyKey),
        Lookup(c, EnvironmentKey),
        Lookup(c, WebRootKey),
        Lookup(c, ContentRootKey),
        SplitWithApplication(applicationName, Lookup(c, HostingStartupAssembliesKey)),
        Split(Lookup(c, HostingStartupExcludeAssembliesKey)),
        ShutdownTimeout(Lookup(c, ShutdownTimeoutKey))))
  }

  /** `GetFinalHostingStartupAssemblies`: the startup assemblies minus the excluded ones. */
  function GetFinalHostingStartupAssemblies(options: Options): (r: seq<string>)
    ensures forall k :: 0 <= k < |r| ==>
      && r[k] in options.hostingStartupAssemblies
      && forall x :: x in options.hostingStartupExcludeAssemblies ==> !EqualsIgnoreCase(r[k], x)
  {
    Except(options.hostingStartupAssemblies, options.hostingStartupExcludeAssemblies)
  }

  /** The startup list of a constructed options record: the application name alone when
      no list is configured or the configured list is empty; a clean application name is
      always its first element. */
  lemma NewStartupAssemblies(c: Configuration, applicationNameFallback: string)
    ensures var o := New(Some(c), applicationNameFallback).value;
      && (HostingStartupAssembliesKey !in c || c[HostingStartupAssembliesKey] == "" ==>
            o.hostingStartupAssemblies == [o.applicationName])
      && (IsEntry(o.applicationName) ==>
            |o.hostingStartupAssemblies| > 0 && o.hostingStartupAssemblies[0] == o.applicationName)
  {
    var o := New(Some(c), applicationNameFallback).value;
    ApplicationNameFirst(o.applicationName, Lookup(c, HostingStartupAssembliesKey));
  }

  /** With a non-empty list configured, the startup list is the application's entries
      followed by the configured ones. */
  lemma NewConfiguredStartupAssemblies(c: Configuration, applicationNameFallback: string)
    requires HostingStartupAssembliesKey in c && c[HostingStartupAssembliesKey] != ""
    ensures var o := New(Some(c), applicationNameFallback).value;
      o.hostingStartupAssemblies
        == Split(Some(o.applicationName)) + Split(Some(c[HostingStartupAssembliesKey]))
  {
    var o := New(Some(c), applicationNameFallback).value;
    ApplicationNameFirst(o.applicationName, Lookup(c, HostingStartupAssembliesKey));
  }


  /** The final startup list keeps only configured startup assemblies, drops every one that
      is excluded ignoring case, names each assembly once up to case, and loses no
      assembly that is not excluded. */
  lemma FinalStartupAssemblies(options: Options)
    ensures var r := GetFinalHostingStartupAssemblies(options);
      && (forall k :: 0 <= k < |r| ==> r[k] in options.hostingStartupAssemblies)
      && (forall k, x :: 0 <= k < |r| && x in options.hostingStartupExcludeAssemblies ==>
            !EqualsIgnoreCase(r[k], x))
      && (forall i, j :: 0 <= i < j < |r| ==> !EqualsIgnoreCase(r[i], r[j]))
      && (forall a ::
            (a in options.hostingStartupAssemblies
             && forall x :: x in options.hostingStartupExcludeAssemblies ==> !EqualsIgnoreCase(a, x))
            ==> exists k :: 0 <= k < |r| && EqualsIgnoreCase(r[k], a))
      && (var h := options.hostingStartupAssemblies;
          |h| > 0 && (forall x :: x in options.hostingStartupExcludeAssemblies ==> !EqualsIgnoreCase(h[0], x))
          ==> |r| > 0 && r[0] == h[0])
  {
    ExceptCharacterization(options.hostingStartupAssemblies, options.hostingStartupExcludeAssemblies);
    ExceptKeepsFirst(options.hostingStartupAssemblies, options.hostingStartupExcludeAssemblies);
  }

  /** An element at the head of `first` that is not excluded stays at the head. */
  lemma ExceptKeepsFirst(first: seq<string>, second: seq<string>)
    ensures |first| > 0 && (forall x :: x in second ==> !EqualsIgnoreCase(first[0], x)) ==>
      var r := Except(first, second);
      |r| > 0 && r[0] == first[0]
  {
    if |first| > 0 && (forall x :: x in second ==> !EqualsIgnoreCase(first[0], x)) {
      assert FoldCase(first[0]) !in Keys(second);
      assert first == [first[0]] + first[1..];
      ExceptFromCons(first[0], first[1..], Keys(second));
    }
  }

  /** With nothing excluded, a clean application name survives into the final list, and
      it comes first there. */
  lemma ApplicationNameLoaded(c: Configuration, applicationNameFallback: string)
    requires HostingStartupExcludeAssembliesKey !in c
    ensures var o := New(Some(c), applicationNameFallback).value;
      IsEntry(o.applicationName) ==>
        && (exists k :: 0 <= k < |GetFinalHostingStartupAssemblies(o)|
              && EqualsIgnoreCase(GetFinalHostingStartupAssemblies(o)[k], o.applicationName))
        && |GetFinalHostingStartupAssemblies(o)| > 0
        && GetFinalHostingStartupAssemblies(o)[0] == o.applicationName
  {
    var o := New(Some(c), applicationNameFallback).value;
    if IsEntry(o.applicationName) {
      NewStartupAssemblies(c, applicationNameFallback);
      assert o.hostingStartupAssemblies[0] == o.applicationName;
      assert o.applicationName in o.hostingStartupAssemblies;
      assert o.hostingStartupExcludeAssemblies == [];
      FinalStartupAssemblies(o);
    }
  }

  /** A timeout written as the decimal text of any `int` in range is read back exactly. */
  lemma ShutdownTimeoutRoundTrip(n: nat)
    requires n <= Decimal.MaxInt32
    ensures ShutdownTimeout(Some(Decimal.NatToText(n))) == n
  {
  }

  /** Signs, white space and empty text fall back to the default. */
  lemma ShutdownTimeoutRejectsNonDigits()
    ensures ShutdownTimeout(None) == DefaultShutdownTimeoutSeconds
    ensures ShutdownTimeout(Some("")) == DefaultShutdownTimeoutSeconds
    ensures ShutdownTimeout(Some("-1")) == DefaultShutdownTimeoutSeconds
    ensures ShutdownTimeout(Some("+7")) == DefaultShutdownTimeoutSeconds
    ensures ShutdownTimeout(Some(" 7")) == DefaultShutdownTimeoutSeconds
    ensures ShutdownTimeout(Some("7 ")) == DefaultShutdownTimeoutSeconds
  {
    assert !Decimal.IsDigit("-1"[0]);
    assert !Decimal.IsDigit("+7"[0]);
    assert !Decimal.IsDigit(" 7"[0]);
    assert !Decimal.IsDigit("7 "[1]);
  }

  /** The largest `int` is accepted, one more falls back to the default, and leading
      zeros are allowed. */
  lemma ShutdownTimeoutRange()
    ensures ShutdownTimeout(Some("2147483647")) == Decimal.MaxInt32
    ensures ShutdownTimeout(Some("2147483648")) == DefaultShutdownTimeoutSeconds
    ensures ShutdownTimeout(Some("0007")) == 7
  {
    Decimal.ValueOfInt32Limit();
    Decimal.ValueLeadingZeros();
  }
}
