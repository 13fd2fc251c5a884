/** The part of project.assets.json the parsers read, as abstract records:
    "targets" maps each framework to its package members, each member's key is
    "name/version" and its "dependencies" object maps names to versions. */
module AssetsJson {
  import opened Wrappers
  import opened Strings

  /** One member `"name/version": { "dependencies": { key: value, ... } }` of a
      target; a member without a "dependencies" object reads as one with an
      empty object. */
  datatype Record = Record(key: string, dependencies: seq<(string, string)>)

  /** One member of "targets": the framework name and its package members, in
      document order. */
  datatype Target = Target(framework: string, packages: seq<Record>)

  /** `GetPackageNameAndVersion` (and the same three lines inlined in the
      other parser): `key.Split('/')`, part 0 is the name and part 1 the
      version; a key without '/' makes `[1]` fail, and parts after the second
      are ignored. */
  function GetPackageNameAndVersion(key: string): (r: Result<(string, string)>)
    ensures r.Err? <==> '/' !in key
    ensures r.Err? ==> r.error == MissingVersionSeparator(key)
    ensures r.Ok? ==>
      var (name, version) := r.value;
      '/' !in name && '/' !in version && name + ['/'] + version <= key &&
      (|name| + 1 + |version| < |key| ==> key[|name| + 1 + |version|] == '/')
  {
    var parts := Split(key, '/');
    SplitPieces(key, '/');
    NoOccurrences(key, '/');
    if |parts| < 2 then Err(MissingVersionSeparator(key))
    else
      FirstPiece(key, '/');
      var tail := key[|parts[0]| + 1..];
      assert key == parts[0] + ['/'] + tail;
      SplitSeparated(parts[0], '/', tail);
      FirstPiece(tail, '/');
      Ok((parts[0], parts[1]))
  }

  /** Name and version written as "name/version", with or without more
      '/'-separated parts after them, are read back unchanged. */
  lemma NameVersionRoundTrip(name: string, version: string, rest: string)
    requires '/' !in name && '/' !in version
    requires rest == [] || rest[0] == '/'
    ensures GetPackageNameAndVersion(name + ['/'] + version + rest) == Ok((name, version))
  {
    var key := name + ['/'] + version + rest;
    assert key == name + ['/'] + (version + rest);
    SplitSeparated(name, '/', version + rest);
    SplitLeading(version, '/', rest);
  }
}
