/** The credential table of the SSH service: parsing `ip=user|password|port`
    properties into `SshInfo` records, loading a whole property source while
    skipping bad entries, and looking a record up by ip. */
module SshCredentials {
  import opened Wrappers
  import opened JavaText

  /** One credential record. A field that was never set is `None` (Java `null`). */
  datatype SshInfo = SshInfo(ip: string, user: Option<string>, password: Option<string>, port: Option<Int32>)

  /** What parsing one entry can throw inside the per-key try block:
      `params[index]` past the end of the split (ArrayIndexOutOfBoundsException),
      or a port that `new Integer` refuses (NumberFormatException). */
  datatype ParseError = MissingField(index: nat) | BadPort(text: string)

  /** The credential table, keyed by ip. */
  type Table = map<string, SshInfo>

  /** The text of a well-formed entry's value. */
  function FormatEntry(user: string, password: string, port: Int32): string {
    user + "|" + password + "|" + IntToString(port)
  }

  /** Parses the value of property `key`. A value that splits into no field at
      all (pipes only) yields a record with only the ip set; otherwise the first
      three fields are user, password and port, and missing ones throw. */
  function ParseEntry(key: string, value: string): (r: Result<SshInfo, ParseError>)
    ensures r.Success? ==> r.value.ip == key
    ensures r.Success? ==> (r.value.user.Some? <==> r.value.port.Some?)
    ensures r.Success? ==> (r.value.password.Some? <==> r.value.port.Some?)
    ensures '|' !in value ==> r == Failure(MissingField(1))
    ensures r.Success? && r.value.port.Some? ==>
              var params := Split(value);
              |params| >= 3 && r.value.user == Some(params[0]) && r.value.password == Some(params[1])
              && r.value.port == ParseInt(params[2])
    ensures 0 < |Split(value)| < 3 ==> r.Failure?
  {
    var params := Split(value);
    if |params| == 0 then Success(SshInfo(key, None, None, None))
    else if |params| == 1 then Failure(MissingField(1))
    else if |params| == 2 then Failure(MissingField(2))
    else match ParseInt(params[2])
      case None => Failure(BadPort(params[2]))
      case Some(n) => Success(SshInfo(key, Some(params[0]), Some(params[1]), Some(n)))
  }

  /** A well-formed entry parses back into exactly the fields it was written from. */
  lemma ParseEntryRoundTrip(key: string, user: string, password: string, port: Int32)
    requires '|' !in user && '|' !in password
    ensures ParseEntry(key, FormatEntry(user, password, port)) == Success(SshInfo(key, Some(user), Some(password), Some(port)))
  {
    var value := FormatEntry(user, password, port);
    var digits := IntToString(port);
    assert value == Join([user, password, digits]) by {
      assert Join([user, password, digits]) == user + "|" + Join([password, digits]);
      assert Join([password, digits]) == password + "|" + Join([digits]);
    }
    RawSplitJoin([user, password, digits]);
    assert value[|user|] == '|';
    assert RawSplit(value)[2] != "";
    ParseIntToString(port);
  }

  /** Fields after the port are ignored: `u|p|n|anything` parses like `u|p|n`. */
  lemma ExtraFieldsIgnored(key: string, user: string, password: string, port: Int32, rest: string)
    requires '|' !in user && '|' !in password
    ensures ParseEntry(key, FormatEntry(user, password, port) + "|" + rest)
            == ParseEntry(key, FormatEntry(user, password, port))
  {
    ParseEntryRoundTrip(key, user, password, port);
    var value := FormatEntry(user, password, port) + "|" + rest;
    var digits := IntToString(port);
    assert value == user + "|" + (password + "|" + (digits + "|" + rest));
    RawSplitField(user, password + "|" + (digits + "|" + rest));
    RawSplitField(password, digits + "|" + rest);
    RawSplitField(digits, rest);
    var raw := RawSplit(value);
    assert raw[0] == user && raw[1] == password && raw[2] == digits;
    assert value[|user|] == '|';
    var params := Split(value);
    assert |params| >= 3;
    assert params[0] == user && params[1] == password && params[2] == digits;
    ParseIntToString(port);
  }

  /** A value made of pipes alone is stored as a record with only the ip set. */
  lemma OnlyPipesStoresIpOnly(key: string, value: string)
    requires |value| > 0 && forall i :: 0 <= i < |value| ==> value[i] == '|'
    ensures ParseEntry(key, value) == Success(SshInfo(key, None, None, None))
  {
    NoFieldsIffOnlyPipes(value);
  }

  /** An ip-only record comes from nothing but a value made of pipes alone. */
  lemma IpOnlyRecordMeansOnlyPipes(key: string, value: string)
    requires ParseEntry(key, value).Success? && ParseEntry(key, value).value.port.None?
    ensures |value| > 0 && forall i :: 0 <= i < |value| ==> value[i] == '|'
  {
    NoFieldsIffOnlyPipes(value);
  }

  /** `after` is the table `load` leaves when it starts from `before` and reads
      the property source `props`: every entry that parses is put under its key,
      every entry that throws leaves that key as it was, other keys are untouched. */
  ghost predicate Loads(before: Table, props: map<string, string>, after: Table) {
    && (forall k :: k in after <==> k in before || (k in props && ParseEntry(k, props[k]).Success?))
    && (forall k :: k in props && ParseEntry(k, props[k]).Success? ==>
          k in after && after[k] == ParseEntry(k, props[k]).value)
    && (forall k :: k in before && (k !in props || ParseEntry(k, props[k]).Failure?) ==>
          k in after && after[k] == before[k])
  }

  /** Reading one more entry that parses puts its record under its key. */
  lemma LoadsPut(table: Table, done: map<string, string>, loaded: Table, key: string, value: string)
    requires key !in done && Loads(table, done, loaded)
    requires ParseEntry(key, value).Success?
    ensures Loads(table, done[key := value], loaded[key := ParseEntry(key, value).value])
  {
  }

  /** Reading one more entry that throws leaves the table as it was. */
  lemma LoadsSkip(table: Table, done: map<string, string>, loaded: Table, key: string, value: string)
    requires key !in done && Loads(table, done, loaded)
    requires ParseEntry(key, value).Failure?
    ensures Loads(table, done[key := value], loaded)
  {
    var done' := done[key := value];
    forall k | k != key
      ensures k in done' <==> k in done
      ensures k in done ==> done'[k] == done[k]
    {
    }
    assert ParseEntry(key, done'[key]).Failure?;
  }

  /** `load`: parses every property in turn, logging and skipping the entries
      that throw. Returns the new table and the keys that were skipped. */
  method Load(table: Table, props: map<string, string>) returns (loaded: Table, skipped: set<string>)
    ensures Loads(table, props, loaded)
    ensures skipped == set k | k in props && ParseEntry(k, props[k]).Failure?
  {
    loaded := table;
    skipped := {};
    var pending := props.Keys;
    while pending != {}
      invariant pending <= props.Keys
      invariant Loads(table, props - pending, loaded)
      invariant skipped == set k | k in props && k !in pending && ParseEntry(k, props[k]).Failure?
      decreases pending
    {
      var key :| key in pending;
      assert props - (pending - {key}) == (props - pending)[key := props[key]];
      match ParseEntry(key, props[key]) {
        case Success(info) =>
          LoadsPut(table, props - pending, loaded, key, props[key]);
          loaded := loaded[key := info];
        case Failure(_) =>
          LoadsSkip(table, props - pending, loaded, key, props[key]);
          skipped := skipped + {key};
      }
      pending := pending - {key};
    }
    assert props - pending == props;
  }

  /** `getSSHInfo`: the record stored for `ip`, or `None` when none was loaded. */
  function GetSshInfo(table: Table, ip: string): (r: Option<SshInfo>)
    ensures r.Some? <==> ip in table
    ensures r.Some? ==> r.value == table[ip]
  {
    Get(table, ip)
  }

  /** After loading into an empty table, looking up an ip finds exactly the
      record its entry parsed to, and nothing for an ip whose entry was skipped
      or absent. */
  lemma ResolveAfterLoad(props: map<string, string>, loaded: Table, ip: string)
    requires Loads(map[], props, loaded)
    ensures GetSshInfo(loaded, ip).Some? <==> ip in props && ParseEntry(ip, props[ip]).Success?
    ensures GetSshInfo(loaded, ip).Some? ==> GetSshInfo(loaded, ip).value == ParseEntry(ip, props[ip]).value
  {
  }

  /** The credential round trip: a well-formed entry `ip=user|password|port`
      resolves to a record holding exactly those fields, whatever else the
      property source contains. */
  lemma WellFormedEntryResolves(props: map<string, string>, loaded: Table,
                                ip: string, user: string, password: string, port: Int32)
    requires Loads(map[], props, loaded)
    requires ip in props && props[ip] == FormatEntry(user, password, port)
    requires '|' !in user && '|' !in password
    ensures GetSshInfo(loaded, ip) == Some(SshInfo(ip, Some(user), Some(password), Some(port)))
  {
    ParseEntryRoundTrip(ip, user, password, port);
  }

  /** A skipped entry does not disturb its neighbours: two property sources that
      agree on key `k` load the same outcome for `k`. */
  lemma EntriesLoadIndependently(table: Table, props1: map<string, string>, props2: map<string, string>,
                                 loaded1: Table, loaded2: Table, k: string)
    requires Loads(table, props1, loaded1) && Loads(table, props2, loaded2)
    requires k in props1 && k in props2 && props1[k] == props2[k]
    ensures k in loaded1 <==> k in loaded2
    ensures k in loaded1 ==> loaded1[k] == loaded2[k]
  {
  }

  /** Where the property source is read from. */
  datatype ConfigSource = ClassPathResource(name: string) | ConfigFile(path: string)

  const ConfigFileName: string := "ssh.properties"

  /** `afterPropertiesSet`: a non-empty override directory names
      `<dir>/ssh.properties`; an absent or empty one falls back to the bundled
      `ssh.properties` resource. */
  function ConfigLocation(overrideDir: Option<string>): (src: ConfigSource)
    ensures src.ClassPathResource? <==> overrideDir.None? || overrideDir.value == ""
    ensures src.ClassPathResource? ==> src.name == ConfigFileName
    ensures src.ConfigFile? ==> |src.path| == |overrideDir.value| + 1 + |ConfigFileName|
    ensures src.ConfigFile? ==> src.path[..|overrideDir.value|] == overrideDir.value
    ensures src.ConfigFile? ==> src.path[|overrideDir.value|..] == "/" + ConfigFileName
  {
    if overrideDir.None? || overrideDir.value == "" then ClassPathResource(ConfigFileName)
    else ConfigFile(overrideDir.value + "/" + ConfigFileName)
  }
}
