/** Secret substitution of `env/secret.go`: a configuration struct whose string fields
    hold `prefix + key` gets those fields replaced by the values stored under `key` in the
    secret file named after the prefix. Reflection is replaced by an explicit list of the
    destination struct's fields. */
module Secret {
  import opened Wrappers
  import opened GoStrings

  /** The name of the secret file for a prefix: the prefix without its leading '@'s and
      its trailing '.'s. The cutset "@@" of the source is the single character '@'. */
  function SecretFileName(prefix: string): (r: string)
    ensures r == [] || (r[0] != '@' && r[|r| - 1] != '.')
  {
    var t := TrimLeft(prefix, '@');
    var r := TrimRight(t, '.');
    assert r != [] ==> r[0] == t[0];
    r
  }

  /** The file name is what is left between a run of '@'s and a run of '.'s. */
  lemma {:induction false} SecretFileNameOfDecorated(a: nat, core: string, d: nat)
    requires core == [] || (core[0] != '@' && core[|core| - 1] != '.')
    ensures SecretFileName(Run('@', a) + core + Run('.', d)) == core
  {
    var rest := core + Run('.', d);
    assert Run('@', a) + core + Run('.', d) == Run('@', a) + rest;
    assert rest == [] || rest[0] != '@' by {
      if rest != [] {
        assert rest[0] != '@';
      }
    }
    TrimLeftRun('@', a, rest);
    TrimRightRun(core, '.', d);
  }

  /** The prefix the MySQL client passes gives the file name "mysql". */
  lemma MysqlSecretFile()
    ensures SecretFileName("@@mysql.") == "mysql"
  {
    SecretFileNameOfDecorated(2, "mysql", 1);
    assert Run('@', 2) + "mysql" + Run('.', 1) == "@@mysql.";
  }

  /** The path `getSecret` loads: `<conf dir>/secret/<name>.secret.yaml`. */
  function SecretPath(confDir: string, prefix: string): (r: string)
    ensures var n := SecretFileName(prefix);
      |r| == |confDir| + 8 + |n| + 12 && r[..|confDir|] == confDir && r[|confDir| + 8 + |n|..] == ".secret.yaml"
  {
    confDir + "/secret/" + SecretFileName(prefix) + ".secret.yaml"
  }

  /** One field of the destination struct: a string field (settable or not) or a field of
      another kind, which the substitution never looks at. */
  datatype Field = StrField(value: string, settable: bool) | OtherField(id: int)

  predicate HasPrefix(s: string, prefix: string)
  {
    |prefix| <= |s| && s[..|prefix|] == prefix
  }

  /** `GetString` on the loaded secrets: the stored value, "" for a missing key. */
  function SecretValue(secrets: map<string, string>, key: string): (r: string)
    ensures key in secrets ==> r == secrets[key]
    ensures key !in secrets ==> r == ""
  {
    if key in secrets then secrets[key] else ""
  }

  /** Whether the substitution rewrites this field. */
  predicate Rewritten(f: Field, prefix: string)
  {
    f.StrField? && HasPrefix(f.value, prefix) && f.settable
  }

  /** Why the substitution does not complete: the source struct has more fields than the
      destination, and the reflective field access panics. */
  datatype SecretError = FieldOutOfRange

  /** `CommonSecretChange`. A source that is not a struct, a destination that is not a
      pointer, or secrets that could not be loaded (`None`) leave the fields as they were.
      Otherwise the first `srcFieldCount` fields are visited, and every settable string
      field starting with `prefix` becomes the secret stored under the rest of its text. */
  method CommonSecretChange(prefix: string, srcIsStruct: bool, dstIsPointer: bool, srcFieldCount: nat,
                            fields: seq<Field>, secrets: Option<map<string, string>>)
    returns (r: Result<seq<Field>, SecretError>)
    ensures !srcIsStruct || !dstIsPointer || secrets.None? ==> r == Ok(fields)
    ensures srcIsStruct && dstIsPointer && secrets.Some? ==> (r.Err? <==> srcFieldCount > |fields|)
    ensures r.Ok? ==> |r.value| == |fields|
    ensures r.Ok? ==> forall k | 0 <= k < |fields| && r.value[k] != fields[k] ::
      k < srcFieldCount && Rewritten(fields[k], prefix)
    ensures r.Ok? && srcIsStruct && dstIsPointer && secrets.Some? ==>
      forall k | 0 <= k < |fields| && k < srcFieldCount && Rewritten(fields[k], prefix) ::
        r.value[k] == StrField(SecretValue(secrets.value, fields[k].value[|prefix|..]), true)
  {
    if !srcIsStruct || !dstIsPointer || secrets.None? {
      return Ok(fields);
    }
    var out := fields;
    var i := 0;
    while i < srcFieldCount
      invariant 0 <= i <= srcFieldCount
      invariant |out| == |fields|
      invariant i <= |fields|
      invariant forall k | i <= k < |fields| :: out[k] == fields[k]
      invariant forall k | 0 <= k < i :: out[k] == Substituted(fields[k], prefix, secrets.value)
    {
      if i >= |out| {
        return Err(FieldOutOfRange);
      }
      var f := out[i];
      if f.StrField? && HasPrefix(f.value, prefix) && f.settable {
        out := out[i := StrField(SecretValue(secrets.value, f.value[|prefix|..]), true)];
      }
      i := i + 1;
    }
    return Ok(out);
  }

  /** A field after the substitution. */
  function Substituted(f: Field, prefix: string, secrets: map<string, string>): (r: Field)
  {
    if Rewritten(f, prefix) then StrField(SecretValue(secrets, f.value[|prefix|..]), true) else f
  }
}
