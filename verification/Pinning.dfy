/** scripts/prepare-release.ts and changePackageJson.ts: bumping the version of every package and
    pinning, in all other packages, the dependencies on it. */
module Pinning {
  import opened Wrappers

  /** A record of version ranges by package name, with its keys in order. */
  datatype Dependencies = Dependencies(keys: seq<string>, ranges: map<string, string>) {
    predicate Valid() {
      && (forall k :: k in keys ==> k in ranges)
      && (forall k :: k in ranges ==> k in keys)
    }
  }

  /** A package.json: the fields the script looks at, and the text of the others. */
  datatype Package = Package(name: string, version: string, dependencies: Option<Dependencies>,
                             devDependencies: Option<Dependencies>, rest: string) {
    predicate Valid() {
      && (dependencies.Some? ==> dependencies.value.Valid())
      && (devDependencies.Some? ==> devDependencies.value.Valid())
    }
  }

  datatype LernaModule = LernaModule(name: string, location: string)

  type DistTags = map<string, string>

  // ----- JSON text

  function EscapeChar(c: char): string {
    if c == '"' then "\\\""
    else if c == '\\' then "\\\\"
    else if c == '\n' then "\\n"
    else if c == '\r' then "\\r"
    else if c == '\t' then "\\t"
    else if c as int == 8 then "\\b"
    else if c as int == 12 then "\\f"
    else if c < ' ' then "\\u00" + [HexDigit(c as int / 16), HexDigit(c as int % 16)]
    else [c]
  }

  function HexDigit(n: int): char
    requires 0 <= n < 16
  {
    "0123456789abcdef"[n]
  }

  function Escape(s: string): string {
    if s == "" then "" else EscapeChar(s[0]) + Escape(s[1..])
  }

  function Quote(s: string): string {
    "\"" + Escape(s) + "\""
  }

  function MembersText(keys: seq<string>, ranges: map<string, string>): string
    requires forall k :: k in keys ==> k in ranges
  {
    if keys == [] then ""
    else Quote(keys[0]) + ":" + Quote(ranges[keys[0]]) + (if |keys| > 1 then "," else "") + MembersText(keys[1..], ranges)
  }

  function RecordText(field: string, d: Option<Dependencies>): string
    requires d.Some? ==> d.value.Valid()
  {
    match d
    case None => ""
    case Some(v) => "," + Quote(field) + ":{" + MembersText(v.keys, v.ranges) + "}"
  }

  /** `JSON.stringify(json)` */
  function Stringify(p: Package): string
    requires p.Valid()
  {
    "{" + Quote("name") + ":" + Quote(p.name) + "," + Quote("version") + ":" + Quote(p.version)
    + RecordText("dependencies", p.dependencies) + RecordText("devDependencies", p.devDependencies)
    + p.rest + "}"
  }

  predicate Includes(t: string, s: string) {
    exists i :: 0 <= i <= |t| && s <= t[i..]
  }

  /** The characters of package names: none is escaped in JSON. */
  predicate Plain(s: string) {
    forall c :: c in s ==> c != '"' && c != '\\' && c >= ' '
  }

  lemma PlainChar(c: char)
    requires c != '"' && c != '\\' && c >= ' '
    ensures EscapeChar(c) == [c]
  {
  }

  lemma {:induction false} PlainUnescaped(s: string)
    requires Plain(s)
    ensures Escape(s) == s
  {
    hide EscapeChar;
    if s != "" {
      assert s[0] in s;
      PlainChar(s[0]);
      assert forall c :: c in s[1..] ==> c in s;
      PlainUnescaped(s[1..]);
    }
  }

  lemma IncludesInside(t: string, x: string, s: string, y: string)
    requires t == x + s + y
    ensures Includes(t, s)
  {
    assert t[|x|..] == s + y;
  }

  lemma IncludesWider(t: string, x: string, s: string, y: string, pat: string)
    requires t == x + s + y && Includes(s, pat)
    ensures Includes(t, pat)
  {
    var i :| 0 <= i <= |s| && pat <= s[i..];
    assert t[|x| + i..] == s[i..] + y;
  }

  lemma {:induction false} MemberIncluded(keys: seq<string>, ranges: map<string, string>, name: string)
    requires (forall k :: k in keys ==> k in ranges) && name in keys && Plain(name)
    ensures Includes(MembersText(keys, ranges), name)
  {
    hide Quote;
    var tail := ":" + Quote(ranges[keys[0]]) + (if |keys| > 1 then "," else "") + MembersText(keys[1..], ranges);
    var t := MembersText(keys, ranges);
    assert t == Quote(keys[0]) + tail;
    if keys[0] == name {
      QuoteIncludes(name);
      IncludesWider(t, "", Quote(name), tail, name);
    } else {
      MemberIncluded(keys[1..], ranges, name);
      var head := Quote(keys[0]) + ":" + Quote(ranges[keys[0]]) + (if |keys| > 1 then "," else "");
      assert t == head + MembersText(keys[1..], ranges) + "";
      IncludesWider(t, head, MembersText(keys[1..], ranges), "", name);
    }
  }

  lemma QuoteIncludes(name: string)
    requires Plain(name)
    ensures Includes(Quote(name), name)
  {
    PlainUnescaped(name);
    IncludesInside(Quote(name), "\"", name, "\"");
  }

  predicate Depends(d: Option<Dependencies>, name: string) {
    d.Some? && name in d.value.ranges
  }

  lemma RecordIncludes(field: string, d: Option<Dependencies>, name: string)
    requires (d.Some? ==> d.value.Valid()) && Depends(d, name) && Plain(name)
    ensures Includes(RecordText(field, d), name)
  {
    hide Quote, MembersText;
    var v := d.value;
    MemberIncluded(v.keys, v.ranges, name);
    IncludesWider(RecordText(field, d), "," + Quote(field) + ":{", MembersText(v.keys, v.ranges), "}", name);
  }

  /** The substring test never passes over a package that depends on the name. */
  lemma GuardSeesDependents(p: Package, name: string)
    requires p.Valid() && Plain(name)
    requires Depends(p.dependencies, name) || Depends(p.devDependencies, name)
    ensures Includes(Stringify(p), name)
  {
    hide Quote, RecordText;
    var head := "{" + Quote("name") + ":" + Quote(p.name) + "," + Quote("version") + ":" + Quote(p.version);
    var d1, d2 := RecordText("dependencies", p.dependencies), RecordText("devDependencies", p.devDependencies);
    if Depends(p.dependencies, name) {
      RecordIncludes("dependencies", p.dependencies, name);
      assert Stringify(p) == head + d1 + (d2 + p.rest + "}");
      IncludesWider(Stringify(p), head, d1, d2 + p.rest + "}", name);
    } else {
      RecordIncludes("devDependencies", p.devDependencies, name);
      assert Stringify(p) == (head + d1) + d2 + (p.rest + "}");
      IncludesWider(Stringify(p), head + d1, d2, p.rest + "}", name);
    }
  }

  // ----- The next version of a package

  /** semver's `lt` and, for the chosen prerelease identifier, `inc`; None where they throw or answer
      null. */
  datatype Semver = Semver(lt: (string, string) -> Option<bool>, inc: string -> Option<string>)

  /** What happens to a package's version: nothing, an exception, or a new version. */
  datatype Next = Keep | Throw | Bump(version: string)

  /** `s.split('-')[0]` */
  function BeforeDash(s: string): (r: string)
    ensures r <= s && '-' !in r && (r != s ==> s[|r|] == '-')
  {
    if s == "" || s[0] == '-' then "" else [s[0]] + BeforeDash(s[1..])
  }

  /** A tag in a template string. */
  function TagText(tags: DistTags, tag: string): string {
    if tag in tags then tags[tag] else "undefined"
  }

  function IncOrThrow(semver: Semver, prevTag: string): Next {
    match semver.inc(prevTag)
    case None => Throw
    case Some(v) => Bump(v)
  }

  /** The version the script computes from the published tags. */
  function NextVersion(preid: string, tags: Option<DistTags>, semver: Semver): Next {
    if tags.None? then Keep
    else
      var t := tags.value;
      if preid in t && t[preid] != "" then
        var latest := if "latest" in t then BeforeDash(t["latest"]) else "0.0.0";
        match semver.lt(BeforeDash(t[preid]), latest)
        case None => Throw
        case Some(older) => IncOrThrow(semver, if older then TagText(t, "latest") + "-" + preid else t[preid])
      else IncOrThrow(semver, TagText(t, "latest") + "-" + preid)
  }

  lemma {:induction false} BeforeFirstDash(s: string, t: string)
    ensures BeforeDash(s + ("-" + t)) == BeforeDash(s)
  {
    var u := s + ("-" + t);
    if s == "" {
      assert u == "-" + t;
    } else {
      assert u[0] == s[0] && u[1..] == s[1..] + ("-" + t);
      BeforeFirstDash(s[1..], t);
    }
  }

  /** What is incremented is never behind the latest release: when the prerelease tag is older, or
      missing, the script starts again from the latest version. */
  lemma NeverBehindLatest(preid: string, t: DistTags, semver: Semver) returns (prevTag: string)
    requires "latest" in t && NextVersion(preid, Some(t), semver).Bump?
    requires forall v :: semver.lt(v, v) != Some(true)
    ensures semver.inc(prevTag) == Some(NextVersion(preid, Some(t), semver).version)
    ensures semver.lt(BeforeDash(prevTag), BeforeDash(t["latest"])) != Some(true)
  {
    var again := t["latest"] + "-" + preid;
    assert again == t["latest"] + ("-" + preid);
    BeforeFirstDash(t["latest"], preid);
    if preid in t && t[preid] != "" && semver.lt(BeforeDash(t[preid]), BeforeDash(t["latest"])) == Some(false) {
      prevTag := t[preid];
    } else {
      prevTag := again;
    }
  }

  /** Laws of semver's order, true where it compares at all: it is transitive, versions whose parts
      before the dash differ are ordered as these are, no such part is below 0.0.0, and what `inc`
      gives is not before what it was given. */
  ghost predicate OrderLaws(semver: Semver) {
    && (forall x, y, z :: semver.lt(x, y) == Some(true) && semver.lt(y, z) == Some(true) ==> semver.lt(x, z) == Some(true))
    && (forall x, y :: semver.lt(BeforeDash(x), BeforeDash(y)) == Some(true) ==> semver.lt(x, y) == Some(true))
    && (forall x :: semver.lt(BeforeDash(x), "0.0.0") != Some(true))
    && (forall x :: semver.inc(x).Some? ==> semver.lt(semver.inc(x).value, x) != Some(true))
  }

  /** The new version is never before the published prerelease: nothing that was published is handed
      out again or gone back behind. */
  lemma NeverBehindPublished(preid: string, t: DistTags, semver: Semver)
    requires OrderLaws(semver)
    requires preid in t && t[preid] != "" && NextVersion(preid, Some(t), semver).Bump?
    ensures semver.lt(NextVersion(preid, Some(t), semver).version, t[preid]) != Some(true)
  {
    hide OrderLaws, BeforeDash;
    var tag, next := t[preid], NextVersion(preid, Some(t), semver).version;
    if semver.inc(tag) == Some(next) {
      NotBack(semver, tag, next);
    } else {
      var again := (if "latest" in t then t["latest"] else "undefined") + "-" + preid;
      var latest := if "latest" in t then BeforeDash(t["latest"]) else "0.0.0";
      assert semver.lt(BeforeDash(tag), latest) == Some(true) && semver.inc(again) == Some(next);
      NotBelowZero(semver, tag);
      assert again == t["latest"] + ("-" + preid);
      BeforeFirstDash(t["latest"], preid);
      Above(semver, tag, again, next);
    }
  }

  lemma NotBack(semver: Semver, x: string, next: string)
    requires OrderLaws(semver) && semver.inc(x) == Some(next)
    ensures semver.lt(next, x) != Some(true)
  {
  }

  lemma NotBelowZero(semver: Semver, x: string)
    requires OrderLaws(semver)
    ensures semver.lt(BeforeDash(x), "0.0.0") != Some(true)
  {
    hide BeforeDash;
  }

  lemma Above(semver: Semver, x: string, y: string, next: string)
    requires OrderLaws(semver) && semver.lt(BeforeDash(x), BeforeDash(y)) == Some(true) && semver.inc(y) == Some(next)
    ensures semver.lt(next, x) != Some(true)
  {
    hide BeforeDash;
    assert semver.lt(x, y) == Some(true);
    assert semver.lt(next, y) != Some(true);
  }

  // ----- Pinning in one package

  /** The names every record answers with a method of all objects.  `__proto__` answers too, but
      assigning a text to it does nothing. */
  const INHERITED: set<string> := {
    "constructor", "hasOwnProperty", "isPrototypeOf", "propertyIsEnumerable", "toString", "toLocaleString", "valueOf",
    "__defineGetter__", "__defineSetter__", "__lookupGetter__", "__lookupSetter__"
  }

  /** `record[name]` is there and not empty. */
  predicate Answers(d: Dependencies, name: string) {
    if name in d.ranges then d.ranges[name] != "" else name in INHERITED
  }

  /** `record[name] = version` */
  function SetRange(d: Dependencies, name: string, version: string): (r: Dependencies)
    ensures d.Valid() ==> r.Valid()
  {
    Dependencies(if name in d.ranges then d.keys else d.keys + [name], d.ranges[name := version])
  }

  function PinRecord(d: Option<Dependencies>, name: string, version: string): (r: Option<Dependencies>)
    ensures d.Some? && d.value.Valid() ==> r.Some? && r.value.Valid()
  {
    if d.Some? && Answers(d.value, name) then Some(SetRange(d.value, name, version)) else d
  }

  /** Pinning adds no key to any record if and only if the name is not inherited: a record without a
      package called constructor gains one. */
  lemma ExactlyOwnNames(name: string)
    ensures name !in INHERITED <==>
      forall d: Dependencies, version: string | d.Valid() :: PinRecord(Some(d), name, version).value.keys == d.keys
  {
    if name in INHERITED {
      var d := Dependencies([], map[]);
      assert d.Valid() && PinRecord(Some(d), name, "1.0.0").value.keys == [name];
    }
  }

  /** A record without a package called constructor gains one. */
  lemma ConstructorAdded(version: string)
    ensures PinRecord(Some(Dependencies([], map[])), "constructor", version)
      == Some(Dependencies(["constructor"], map["constructor" := version]))
  {
    assert "constructor" in INHERITED;
    assert [] + ["constructor"] == ["constructor"];
  }

  function Pin(p: Package, name: string, version: string): Package {
    p.(dependencies := PinRecord(p.dependencies, name, version),
       devDependencies := PinRecord(p.devDependencies, name, version))
  }

  /** A parsed package.json. */
  class Json {
    const name: string
    var version: string
    var dependencies: Option<Dependencies>
    var devDependencies: Option<Dependencies>
    const rest: string

    constructor (p: Package)
      ensures Value() == p
    {
      name := p.name;
      version := p.version;
      dependencies := p.dependencies;
      devDependencies := p.devDependencies;
      rest := p.rest;
    }

    function Value(): Package
      reads this
    {
      Package(name, version, dependencies, devDependencies, rest)
    }

    /** `setDependencyVersion(packageJson, dependencyName, version)` */
    method SetDependencyVersion(dependencyName: string, next: string)
      modifies this
      ensures Value() == Pin(old(Value()), dependencyName, next)
    {
      if dependencies.Some? && Answers(dependencies.value, dependencyName) {
        dependencies := Some(SetRange(dependencies.value, dependencyName, next));
      }
      if devDependencies.Some? && Answers(devDependencies.value, dependencyName) {
        devDependencies := Some(SetRange(devDependencies.value, dependencyName, next));
      }
    }
  }

  // ----- What the whole run must leave behind

  /** The package names and the new versions, module by module. */
  datatype Bumps = Bumps(names: seq<string>, next: seq<Next>)

  /** The final version of the first of the modules 0..n-1 but own that has the name and is bumped. */
  function FinalVersion(b: Bumps, n: nat, own: nat, name: string): Option<string>
    requires n <= |b.names| == |b.next|
  {
    if n == 0 then None
    else if n - 1 != own && b.names[n - 1] == name && b.next[n - 1].Bump? then Some(b.next[n - 1].version)
    else FinalVersion(b, n - 1, own, name)
  }

  /** A record after the modules 0..n-1 were bumped: the same keys; a non-empty range of a bumped
      module is its final version, any other range is unchanged. */
  function PinnedRecord(d: Option<Dependencies>, b: Bumps, n: nat, own: nat): Option<Dependencies>
    requires n <= |b.names| == |b.next|
  {
    match d
    case None => None
    case Some(v) =>
      Some(Dependencies(v.keys, map k | k in v.ranges ::
        if v.ranges[k] != "" && FinalVersion(b, n, own, k).Some? then FinalVersion(b, n, own, k).value else v.ranges[k]))
  }

  /** Module j's package.json after the modules 0..n-1 were bumped. */
  function Settled(p: Package, b: Bumps, n: nat, j: nat): Package
    requires n <= |b.names| == |b.next|
  {
    Package(p.name,
      if j < n && b.next[j].Bump? then b.next[j].version else p.version,
      PinnedRecord(p.dependencies, b, n, j),
      PinnedRecord(p.devDependencies, b, n, j),
      p.rest)
  }

  predicate Distinct(xs: seq<string>) {
    forall i, j :: 0 <= i < j < |xs| ==> xs[i] != xs[j]
  }

  lemma {:induction false} NotYetBumped(b: Bumps, n: nat, own: nat, name: string)
    requires n <= |b.names| == |b.next|
    requires forall i :: 0 <= i < n ==> b.names[i] != name
    ensures FinalVersion(b, n, own, name) == None
  {
    if n > 0 {
      NotYetBumped(b, n - 1, own, name);
    }
  }

  lemma PinnedRecordStep(d: Option<Dependencies>, b: Bumps, n: nat, j: nat)
    requires n < |b.names| == |b.next| && Distinct(b.names) && b.names[n] !in INHERITED
    ensures PinnedRecord(d, b, n + 1, j) ==
      if j != n && b.next[n].Bump? then PinRecord(PinnedRecord(d, b, n, j), b.names[n], b.next[n].version)
      else PinnedRecord(d, b, n, j)
  {
    NotYetBumped(b, n, j, b.names[n]);
    if d.Some? {
      var l := PinnedRecord(d, b, n + 1, j).value;
      var r := (if j != n && b.next[n].Bump? then PinRecord(PinnedRecord(d, b, n, j), b.names[n], b.next[n].version)
                else PinnedRecord(d, b, n, j)).value;
      forall k | k in l.ranges
        ensures k in r.ranges && l.ranges[k] == r.ranges[k]
      {
        assert FinalVersion(b, n + 1, j, k) ==
          if n != j && b.names[n] == k && b.next[n].Bump? then Some(b.next[n].version) else FinalVersion(b, n, j, k);
      }
      assert l.ranges == r.ranges;
    }
  }

  /** One more module bumped. */
  lemma SettledStep(p: Package, b: Bumps, n: nat, j: nat)
    requires n < |b.names| == |b.next| && Distinct(b.names) && b.names[n] !in INHERITED
    ensures b.next[n].Bump? && j != n ==> Settled(p, b, n + 1, j) == Pin(Settled(p, b, n, j), b.names[n], b.next[n].version)
    ensures b.next[n].Bump? && j == n ==> Settled(p, b, n + 1, j) == Settled(p, b, n, j).(version := b.next[n].version)
    ensures !b.next[n].Bump? ==> Settled(p, b, n + 1, j) == Settled(p, b, n, j)
  {
    hide FinalVersion;
    PinnedRecordStep(p.dependencies, b, n, j);
    PinnedRecordStep(p.devDependencies, b, n, j);
  }

  lemma SettledStart(p: Package, b: Bumps, j: nat)
    requires |b.names| == |b.next|
    ensures Settled(p, b, 0, j) == p
  {
    if p.dependencies.Some? {
      assert PinnedRecord(p.dependencies, b, 0, j).value.ranges == p.dependencies.value.ranges;
    }
    if p.devDependencies.Some? {
      assert PinnedRecord(p.devDependencies, b, 0, j).value.ranges == p.devDependencies.value.ranges;
    }
  }

  lemma {:induction false} FinalVersionFound(b: Bumps, n: nat, own: nat, i: nat)
    requires i < n <= |b.names| == |b.next| && Distinct(b.names)
    requires i != own && b.next[i].Bump?
    ensures FinalVersion(b, n, own, b.names[i]) == Some(b.next[i].version)
  {
    if i < n - 1 {
      FinalVersionFound(b, n - 1, own, i);
    }
  }

  /** A range in the record after a full run. */
  function RangeIn(d: Option<Dependencies>, name: string): string
    requires Depends(d, name)
  {
    d.value.ranges[name]
  }

  /** The range that names a bumped package q holds its version v exactly when it was not empty (or v
      itself is), and no key came or went. */
  ghost predicate PinnedTo(d: Option<Dependencies>, d': Option<Dependencies>, name: string, v: string) {
    && (forall key :: Depends(d', key) <==> Depends(d, key))
    && (Depends(d, name) ==> (RangeIn(d', name) == v <==> RangeIn(d, name) != "" || v == ""))
  }

  /** p became p' while q' got the version v: p' is pinned to q'. */
  ghost predicate Pinned(p: Package, p': Package, q': Package, v: string) {
    && q'.version == v
    && PinnedTo(p.dependencies, p'.dependencies, q'.name, v)
    && PinnedTo(p.devDependencies, p'.devDependencies, q'.name, v)
  }

  /** After all modules were bumped, for every package p and every other bumped package q: the ranges
      of p that name q are q's final version, if and only if they were not empty before. */
  lemma PinsConsistent(p: Package, q: Package, b: Bumps, i: nat, j: nat)
    requires |b.names| == |b.next| && Distinct(b.names)
    requires i < |b.names| && j < |b.names| && i != j && b.next[i].Bump? && q.name == b.names[i]
    ensures Pinned(p, Settled(p, b, |b.names|, j), Settled(q, b, |b.names|, i), b.next[i].version)
  {
    FinalVersionFound(b, |b.names|, j, i);
  }

  /** An empty range on a bumped package is passed over: the pin is missed. */
  lemma EmptyRangeMissed(p: Package, b: Bumps)
    requires p.dependencies == Some(Dependencies(["b"], map["b" := ""]))
    requires b == Bumps(["b", "p"], [Bump("1.0.0"), Keep])
    ensures Settled(p, b, 2, 1).dependencies == p.dependencies && FinalVersion(b, 2, 1, "b") == Some("1.0.0")
  {
    assert b.names[0] == "b";
    FinalVersionFound(b, 2, 1, 0);
    assert PinnedRecord(p.dependencies, b, 2, 1).value.ranges == map["b" := ""];
  }

  lemma {:induction false} NoFinalVersion(b: Bumps, n: nat, own: nat, name: string)
    requires n <= |b.names| == |b.next|
    requires forall i :: 0 <= i < n && i != own && b.next[i].Bump? ==> b.names[i] != name
    ensures FinalVersion(b, n, own, name) == None
  {
    if n > 0 {
      NoFinalVersion(b, n - 1, own, name);
    }
  }

  /** A range that names no other bumped package is left alone. */
  lemma OtherRangesKept(p: Package, b: Bumps, j: nat, name: string)
    requires |b.names| == |b.next| && j < |b.names|
    requires forall i :: 0 <= i < |b.names| && i != j && b.next[i].Bump? ==> b.names[i] != name
    ensures
      var p' := Settled(p, b, |b.names|, j);
      && (Depends(p.dependencies, name) ==>
           Depends(p'.dependencies, name) && RangeIn(p'.dependencies, name) == RangeIn(p.dependencies, name))
      && (Depends(p.devDependencies, name) ==>
           Depends(p'.devDependencies, name) && RangeIn(p'.devDependencies, name) == RangeIn(p.devDependencies, name))
  {
    NoFinalVersion(b, |b.names|, j, name);
  }

  // ----- One bump after another

  /** Pinning behind the substring test of the script. */
  ghost function GuardedPin(p: Package, name: string, version: string): (r: Package)
    requires p.Valid()
    ensures r.Valid() && r.name == p.name
  {
    PinValid(p, name, version);
    if Includes(Stringify(p), name) then Pin(p, name, version) else p
  }

  lemma GuardIs(p: Package, name: string, version: string)
    requires p.Valid()
    ensures GuardedPin(p, name, version) == if Includes(Stringify(p), name) then Pin(p, name, version) else p
  {
  }

  /** Module j's package.json after the modules 0..n-1 had their turn. */
  ghost function After(p: Package, b: Bumps, n: nat, j: nat): (r: Package)
    requires p.Valid() && n <= |b.names| == |b.next|
    ensures r.Valid() && r.name == p.name
  {
    if n == 0 then p
    else
      var q := After(p, b, n - 1, j);
      if !b.next[n - 1].Bump? then q
      else if j == n - 1 then q.(version := b.next[n - 1].version)
      else GuardedPin(q, b.names[n - 1], b.next[n - 1].version)
  }

  /** A name that JSON does not escape and that no object answers by itself. */
  predicate Ordinary(name: string) {
    Plain(name) && name !in INHERITED
  }

  ghost predicate OrdinaryNames(b: Bumps) {
    Distinct(b.names) && forall i :: 0 <= i < |b.names| ==> Ordinary(b.names[i])
  }

  /** For an ordinary name the substring test makes no difference: what it passes over does not depend
      on the name. */
  lemma GuardHarmless(p: Package, name: string, version: string)
    requires p.Valid() && Ordinary(name)
    ensures GuardedPin(p, name, version) == Pin(p, name, version)
  {
    hide Stringify, Includes;
    if Depends(p.dependencies, name) || Depends(p.devDependencies, name) {
      GuardSeesDependents(p, name);
    }
  }

  lemma {:induction false} AfterIsSettled(p: Package, b: Bumps, n: nat, j: nat)
    requires p.Valid() && n <= |b.names| == |b.next| && OrdinaryNames(b)
    ensures After(p, b, n, j) == Settled(p, b, n, j)
  {
    hide GuardedPin, Settled, Pin, Plain;
    if n == 0 {
      SettledStart(p, b, j);
    } else {
      AfterIsSettled(p, b, n - 1, j);
      SettledStep(p, b, n - 1, j);
      if b.next[n - 1].Bump? && j != n - 1 {
        GuardHarmless(After(p, b, n - 1, j), b.names[n - 1], b.next[n - 1].version);
      }
    }
  }

  // ----- The script

  /** A version that `inc` gave, or the failed assertion when it gave none. */
  ghost function IncrementOf(v: Option<string>): (next: Next)
    ensures v.Some? <==> next.Bump?
    ensures v.Some? ==> next.version == v.value
    ensures v.None? ==> next == Throw
  {
    if v.Some? then Bump(v.value) else Throw
  }

  /** What the script increments, branch by branch. */
  lemma NextIs(preid: string, tags: Option<DistTags>, semver: Semver)
    ensures tags.None? ==> NextVersion(preid, tags, semver) == Keep
    ensures tags.Some? ==>
      var next, t := NextVersion(preid, tags, semver), tags.value;
      var again := (if "latest" in t then t["latest"] else "undefined") + "-" + preid;
      if preid !in t || t[preid] == "" then next == IncrementOf(semver.inc(again))
      else
        match semver.lt(BeforeDash(t[preid]), if "latest" in t then BeforeDash(t["latest"]) else "0.0.0")
        case None => next == Throw
        case Some(true) => next == IncrementOf(semver.inc(again))
        case Some(false) => next == IncrementOf(semver.inc(t[preid]))
  {
    hide BeforeDash;
  }

  /** The package.json files by directory. */
  class Files {
    var files: map<string, Package>

    constructor (files: map<string, Package>)
      ensures this.files == files
    {
      this.files := files;
    }

    /** `readModulePackageJson(module)` */
    method Read(m: LernaModule) returns (json: Json)
      requires m.location in files
      ensures fresh(json) && json.Value() == files[m.location]
    {
      json := new Json(files[m.location]);
    }

    /** `writeModulePackageJson(module, json)` */
    method Write(m: LernaModule, json: Json)
      modifies this
      ensures files == old(files)[m.location := json.Value()]
    {
      files := files[m.location := json.Value()];
    }

    /** Every module has a valid package.json in a directory of its own. */
    ghost predicate Complete(modules: seq<LernaModule>)
      reads this
    {
      && (forall i :: 0 <= i < |modules| ==> modules[i].location in files && files[modules[i].location].Valid())
      && (forall i, j :: 0 <= i < j < |modules| ==> modules[i].location != modules[j].location)
    }

    /** `incrementVersionsForModuleLocation` for module n. */
    method IncrementOne(preid: string, modules: seq<LernaModule>, n: nat, tags: Option<DistTags>, semver: Semver)
      returns (next: Next)
      requires Complete(modules) && n < |modules|
      modifies this
      ensures Complete(modules) && files.Keys == old(files).Keys
      ensures next == NextVersion(preid, tags, semver)
      ensures tags.None? ==> next == Keep
      ensures tags.Some? ==>
        var t := tags.value;
        var again := (if "latest" in t then t["latest"] else "undefined") + "-" + preid;
        if preid !in t || t[preid] == "" then next == IncrementOf(semver.inc(again))
        else
          match semver.lt(BeforeDash(t[preid]), if "latest" in t then BeforeDash(t["latest"]) else "0.0.0")
          case None => next == Throw
          case Some(true) => next == IncrementOf(semver.inc(again))
          case Some(false) => next == IncrementOf(semver.inc(t[preid]))
      ensures !next.Bump? ==> files == old(files)
      ensures next.Bump? ==>
        files[modules[n].location] == old(files)[modules[n].location].(version := next.version)
      ensures next.Bump? ==> forall j :: 0 <= j < |modules| && j != n ==>
        files[modules[j].location] ==
          GuardedPin(old(files)[modules[j].location], old(files)[modules[n].location].name, next.version)
    {
      hide Stringify, Pin, NextVersion, IncrementOf, BeforeDash, GuardedPin, Package.Valid;
      var json := Read(modules[n]);
      next := NextVersion(preid, tags, semver);
      NextIs(preid, tags, semver);
      if !next.Bump? {
        return;
      }
      var version := next.version;
      json.version := version;
      Write(modules[n], json);
      for k := 0 to |modules|
        invariant json.Value() == old(files)[modules[n].location].(version := version)
        invariant files.Keys == old(files).Keys
        invariant files[modules[n].location] == json.Value()
        invariant forall j :: 0 <= j < |modules| && j != n ==>
          files[modules[j].location] ==
            if j < k then GuardedPin(old(files)[modules[j].location], json.name, version)
            else old(files)[modules[j].location]
      {
        if modules[k].location != modules[n].location {
          var otherJson := Read(modules[k]);
          if ContainsText(Stringify(otherJson.Value()), json.name) {
            otherJson.SetDependencyVersion(json.name, version);
            Write(modules[k], otherJson);
          }
          GuardIs(old(files)[modules[k].location], json.name, version);
        }
      }
      forall j | 0 <= j < |modules|
        ensures files[modules[j].location].Valid()
      {
        PinValid(old(files)[modules[j].location], json.name, version);
      }
    }

    /** `incrementVersions`: each module in turn; one that throws is passed over.  Every package.json is
        what the bumps, one after another, make of it.  With names that are distinct and ordinary, every
        package is pinned to the final version of every other package that was bumped. */
    method IncrementVersions(preid: string, modules: seq<LernaModule>, tags: seq<Option<DistTags>>, semver: Semver,
                             ghost b: Bumps)
      requires Complete(modules) && |tags| == |modules| == |b.names| == |b.next|
      requires forall i :: 0 <= i < |modules| ==>
        b.names[i] == files[modules[i].location].name && b.next[i] == NextVersion(preid, tags[i], semver)
      modifies this
      ensures Complete(modules) && files.Keys == old(files).Keys
      ensures forall j :: 0 <= j < |modules| ==>
        files[modules[j].location] == After(old(files)[modules[j].location], b, |modules|, j)
      ensures OrdinaryNames(b) ==> forall i, j :: 0 <= i < |modules| && 0 <= j < |modules| && i != j && b.next[i].Bump? ==>
        Pinned(old(files)[modules[j].location], files[modules[j].location], files[modules[i].location], b.next[i].version)
    {
      hide NextVersion, GuardedPin, Pinned, Package.Valid;
      for n := 0 to |modules|
        invariant Complete(modules) && files.Keys == old(files).Keys
        invariant forall j :: 0 <= j < |modules| ==>
          files[modules[j].location] == After(old(files)[modules[j].location], b, n, j)
      {
        var next := IncrementOne(preid, modules, n, tags[n], semver);
      }
      if OrdinaryNames(b) {
        forall i, j | 0 <= i < |modules| && 0 <= j < |modules| && i != j && b.next[i].Bump?
          ensures Pinned(old(files)[modules[j].location], files[modules[j].location], files[modules[i].location], b.next[i].version)
        {
          var p, q := old(files)[modules[j].location], old(files)[modules[i].location];
          AfterIsSettled(p, b, |modules|, j);
          AfterIsSettled(q, b, |modules|, i);
          PinsConsistent(p, q, b, i, j);
        }
      }
    }
  }

  /** `t.includes(s)` */
  function ContainsText(t: string, s: string): (r: bool)
    ensures r == Includes(t, s)
  {
    if s <= t then
      assert t[0..] == t;
      true
    else if t == "" then
      false
    else
      assert Includes(t[1..], s) ==> Includes(t, s) by {
        if Includes(t[1..], s) {
          var i :| 0 <= i <= |t[1..]| && s <= t[1..][i..];
          assert t[i + 1..] == t[1..][i..];
        }
      }
      assert Includes(t, s) ==> Includes(t[1..], s) by {
        if Includes(t, s) {
          var i :| 0 <= i <= |t| && s <= t[i..];
          assert t[0..] == t;
          assert t[1..][i - 1..] == t[i..];
        }
      }
      ContainsText(t[1..], s)
  }

  lemma PinValid(p: Package, name: string, version: string)
    requires p.Valid()
    ensures Pin(p, name, version).Valid() && p.(version := version).Valid()
  {
  }
}
