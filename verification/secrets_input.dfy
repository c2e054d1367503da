/** The secret-reference grammar of the action. The `secrets` input is a
    `;`-separated list of entries, each `<path> <key>` or
    `<path> <key> | <name>`; the parser turns it into the ordered list of
    references that are then fetched and exported, or throws on the first
    malformed entry. */
module SecretsInput {
  import opened JsStrings

  /** One parsed entry: the path of the secret on the server, the key inside
      that secret, and the name under which its value is exported. */
  datatype SecretReference = SecretReference(secretPath: string, secretKey: string, outputName: string)

  /** The two errors the parser throws. Each carries the entry it rejected,
      which its message quotes. */
  datatype ParseError =
    | MissingOutputName(entry: string)
    | InvalidPathAndKey(entry: string)

  /** A parse either returns a value or throws a `ParseError`. */
  datatype Result<T> = Success(value: T) | Failure(error: ParseError)

  /** JavaScript's `null` or a string, for the output name before it is known. */
  datatype Option<T> = None | Some(value: T)

  const EntrySeparator: char := ';'
  const RenameSigil: char := '|'

  /** The text of the error that is thrown: a fixed sentence for each kind,
      then the rejected entry in double quotes. */
  function Message(e: ParseError): (text: string)
    ensures |text| >= |e.entry| + 2
    ensures text[|text| - |e.entry| - 2..] == ['"'] + e.entry + ['"']
  {
    var sentence := match e
      case MissingOutputName(_) => "You must provide a value when mapping a secret to a name. Input: "
      case InvalidPathAndKey(_) => "You must provide a valid path and key. Input: ";
    var quoted := ['"'] + e.entry + ['"'];
    assert (sentence + quoted)[|sentence|..] == quoted;
    sentence + quoted
  }

  /** What every parsed reference satisfies: path and key are non-empty and
      hold no white space, white space being what separates them. */
  predicate WellFormed(ref: SecretReference)
  {
    && ref.secretPath != [] && NoWhitespace(ref.secretPath)
    && ref.secretKey != [] && NoWhitespace(ref.secretKey)
  }

  // ---------------------------------------------------------------------------
  // Entries
  // ---------------------------------------------------------------------------

  /** The entries of the input: split on `;`, drop the empty pieces, trim
      the rest, drop the pieces that are now empty. Every entry is
      non-empty, trimmed and free of `;`. */
  function Entries(secretsInput: string): (entries: seq<string>)
    ensures forall e :: e in entries ==> e != [] && EntrySeparator !in e && Trim(e) == e
  {
    var pieces := Split(secretsInput, EntrySeparator);
    var trimmed := TrimAll(DropEmpty(pieces));
    var entries := DropEmpty(trimmed);
    assert forall e :: e in entries ==> e != [] && EntrySeparator !in e && Trim(e) == e by {
      forall e | e in entries
        ensures e != [] && EntrySeparator !in e && Trim(e) == e
      {
        var i :| 0 <= i < |trimmed| && trimmed[i] == e;
        var p := DropEmpty(pieces)[i];
        assert p in DropEmpty(pieces);
        TrimIdempotent(p);
      }
    }
    entries
  }

  /** The first filter, which drops the empty pieces before trimming, makes
      no difference: the filter after trimming drops them as well. */
  lemma EntriesFirstFilterRedundant(secretsInput: string)
    ensures Entries(secretsInput) == DropEmpty(TrimAll(Split(secretsInput, EntrySeparator)))
  {
    DropEmptyBeforeTrim(Split(secretsInput, EntrySeparator));
  }

  /** Entries keep their left-to-right order: the entries of two inputs
      joined by `;` are those of the first followed by those of the second. */
  lemma EntriesAppend(a: string, b: string)
    ensures Entries(a + [EntrySeparator] + b) == Entries(a) + Entries(b)
  {
    var pa, pb := Split(a, EntrySeparator), Split(b, EntrySeparator);
    SplitAppend(a, b, EntrySeparator);
    EntriesFirstFilterRedundant(a);
    EntriesFirstFilterRedundant(b);
    EntriesFirstFilterRedundant(a + [EntrySeparator] + b);
    TrimAllAppend(pa, pb);
    DropEmptyAppend(TrimAll(pa), TrimAll(pb));
  }

  /** A piece of the input that is empty or only white space yields no entry. */
  lemma EntriesOfBlank(blank: string)
    requires AllWhitespace(blank)
    ensures Entries(blank) == []
  {
    assert EntrySeparator !in blank;
    EntriesFirstFilterRedundant(blank);
    assert Split(blank, EntrySeparator) == [blank];
  }

  /** Joining trimmed, non-empty entries without `;` by `;` gives an input
      whose entries are exactly those. */
  lemma EntriesOfJoin(entries: seq<string>)
    requires forall e :: e in entries ==> e != [] && EntrySeparator !in e && Trim(e) == e
    ensures Entries(Join(entries, EntrySeparator)) == entries
  {
    if entries == [] {
      EntriesOfBlank([]);
    } else {
      SplitJoin(entries, EntrySeparator);
      DropEmptyNone(entries);
      TrimAllFixed(entries);
    }
  }

  // ---------------------------------------------------------------------------
  // Deriving an output name from a key
  // ---------------------------------------------------------------------------

  /** The output name derived from a key: the first `/` becomes `__`, then
      the first character outside `[A-Za-z0-9_-]` is removed, then ASCII
      letters are upper-cased. Each of the two replacements acts once. The
      name holds no lower-case ASCII letter. Its length is that of the key,
      plus one when the key holds `/`, minus one when a disallowed character
      remains after that replacement. A key made only of `[A-Za-z0-9_-]` is
      simply upper-cased. */
  function NormalizeOutputKey(dataKey: string): (name: string)
    ensures forall i :: 0 <= i < |name| ==> !IsLowerAscii(name[i])
    ensures |name| == |dataKey| + (if '/' in dataKey then 1 else 0)
                      - (if AllWordOrHyphen(ReplaceFirst(dataKey, '/', "__")) then 0 else 1)
    ensures AllWordOrHyphen(dataKey) ==> name == UpperAscii(dataKey)
  {
    assert AllWordOrHyphen(dataKey) ==> '/' !in dataKey;
    UpperAscii(RemoveFirstNonWordOrHyphen(ReplaceFirst(dataKey, '/', "__")))
  }

  /** Only the first `/` is replaced and only the first disallowed character
      that remains is removed: `a/b/c` becomes `a__b/c`, then `a__bc`, then
      `A__BC`. */
  lemma NormalizeOneShot()
    ensures NormalizeOutputKey("a/b/c") == "A__BC"
  {
    ReplaceFirstSlash();
    RemoveSecondSlash();
    UpperOneShot();
  }

  lemma UpperOneShot()
    ensures UpperAscii("a__bc") == "A__BC"
  {
    var r := UpperAscii("a__bc");
    assert r[0] == 'A' && r[1] == '_' && r[2] == '_' && r[3] == 'B' && r[4] == 'C';
  }

  lemma ReplaceFirstSlash()
    ensures ReplaceFirst("a/b/c", '/', "__") == "a__b/c"
  {
    ReplaceFirstIs("a/b/c", '/', "__", 1);
    assert "a/b/c"[..1] + "__" + "a/b/c"[2..] == "a__b/c";
  }

  lemma RemoveSecondSlash()
    ensures RemoveFirstNonWordOrHyphen("a__b/c") == "a__bc"
  {
    RemoveFirstNonWordOrHyphenIs("a__b/c", 4);
    assert "a__b/c"[..4] + "a__b/c"[5..] == "a__bc";
  }

  /** The derived name is empty exactly when the key is empty or is a single
      character that is neither `/` nor in `[A-Za-z0-9_-]`. */
  lemma NormalizeEmptyIff(dataKey: string)
    ensures NormalizeOutputKey(dataKey) == []
        <==> dataKey == [] || (|dataKey| == 1 && dataKey[0] != '/' && !IsWordOrHyphen(dataKey[0]))
  {
    if |dataKey| == 1 && dataKey[0] != '/' {
      assert '/' !in dataKey;
      assert AllWordOrHyphen(dataKey) <==> IsWordOrHyphen(dataKey[0]);
    }
  }

  // ---------------------------------------------------------------------------
  // One entry
  // ---------------------------------------------------------------------------

  /** The entry cut at its last `|`: the trimmed text before it and the
      trimmed name after it, or the whole entry and no name. */
  function SplitRename(secret: string): (r: (string, Option<string>))
    ensures r.1.None? <==> RenameSigil !in secret
    ensures r.1.None? ==> r.0 == secret
    ensures r.1.Some? ==> RenameSigil !in r.1.value
    ensures r.1.Some? ==> Trim(r.0) == r.0 && Trim(r.1.value) == r.1.value
  {
    var renameSigilIndex := LastIndexOf(secret, RenameSigil);
    if renameSigilIndex > -1 then
      TrimIdempotent(secret[..renameSigilIndex]);
      TrimIdempotent(secret[renameSigilIndex + 1..]);
      (Trim(secret[..renameSigilIndex]), Some(Trim(secret[renameSigilIndex + 1..])))
    else
      (secret, None)
  }

  /** The rest of an entry once its name is cut off: exactly two white-space
      separated tokens, the path and the key, and the name derived from the
      key when none was given. */
  function ParsePathAndKey(secret: string, path: string, outputName: Option<string>): (r: Result<SecretReference>)
    ensures r.Success? <==> |Tokens(path)| == 2
    ensures r.Failure? ==> r.error == InvalidPathAndKey(secret)
    ensures r.Success? ==> WellFormed(r.value) && Tokens(path) == [r.value.secretPath, r.value.secretKey]
    ensures r.Success? && outputName.Some? && outputName.value != [] ==> r.value.outputName == outputName.value
    ensures r.Success? && (outputName.None? || outputName.value == []) ==>
      r.value.outputName == NormalizeOutputKey(r.value.secretKey)
  {
    var pathParts := Tokens(path);
    if |pathParts| != 2 then
      Failure(InvalidPathAndKey(secret))
    else
      var secretPath, secretKey := pathParts[0], pathParts[1];
      var name := if outputName.None? || outputName.value == [] then NormalizeOutputKey(secretKey)
                  else outputName.value;
      TwoTokens(pathParts, name);
      Success(SecretReference(secretPath, secretKey, name))
  }

  /** Two tokens make a well-formed path and key. */
  lemma TwoTokens(pathParts: seq<string>, name: string)
    requires |pathParts| == 2 && forall t :: t in pathParts ==> t != [] && NoWhitespace(t)
    ensures WellFormed(SecretReference(pathParts[0], pathParts[1], name))
    ensures pathParts == [pathParts[0], pathParts[1]]
  {
    assert pathParts[0] in pathParts && pathParts[1] in pathParts;
  }

  /** What the parser does with one entry: an explicit name after the last
      `|`, which must not be empty, then the path and the key. */
  function ParseEntry(secret: string): Result<SecretReference>
  {
    var (path, outputName) := SplitRename(secret);
    if outputName.Some? && |outputName.value| < 1 then
      Failure(MissingOutputName(secret))
    else
      ParsePathAndKey(secret, path, outputName)
  }

  /** A parsed entry has a non-empty path and key without white space. An
      entry with `|` gets a non-empty name without `|`; one without gets the
      name derived from its key. An error carries the entry, and a missing
      name is only reported for an entry with `|`. */
  lemma ParseEntrySpec(secret: string)
    ensures ParseEntry(secret).Success? ==> WellFormed(ParseEntry(secret).value)
    ensures ParseEntry(secret).Success? && RenameSigil in secret ==>
      ParseEntry(secret).value.outputName != [] && RenameSigil !in ParseEntry(secret).value.outputName
    ensures ParseEntry(secret).Success? && RenameSigil !in secret ==>
      ParseEntry(secret).value.outputName == NormalizeOutputKey(ParseEntry(secret).value.secretKey)
    ensures ParseEntry(secret).Failure? ==> ParseEntry(secret).error.entry == secret
    ensures ParseEntry(secret).Failure? && ParseEntry(secret).error.MissingOutputName? ==>
      RenameSigil in secret
  {
    var i := LastIndexOf(secret, RenameSigil);
    if i > -1 {
      NamedEntrySpec(secret, i);
    } else {
      UnnamedEntrySpec(secret);
    }
  }

  /** `ParseEntrySpec` for an entry whose last `|` is at `i`. */
  lemma NamedEntrySpec(secret: string, i: int)
    requires i == LastIndexOf(secret, RenameSigil) && i > -1
    ensures ParseEntry(secret).Success? ==>
      && WellFormed(ParseEntry(secret).value)
      && ParseEntry(secret).value.outputName != []
      && RenameSigil !in ParseEntry(secret).value.outputName
    ensures ParseEntry(secret).Failure? ==> ParseEntry(secret).error.entry == secret
  {
    var name := Trim(secret[i + 1..]);
    if |name| < 1 {
      ParseEntryMissingName(secret, i);
    } else {
      var parts := Tokens(Trim(secret[..i]));
      if |parts| != 2 {
        ParseEntryBadTokensNamed(secret, i);
      } else {
        assert parts[0] in parts && parts[1] in parts;
        assert RenameSigil !in secret[i + 1..];
        ParseEntryNamed(secret, i, parts);
      }
    }
  }

  /** `ParseEntrySpec` for an entry without `|`. */
  lemma UnnamedEntrySpec(secret: string)
    requires LastIndexOf(secret, RenameSigil) == -1
    ensures ParseEntry(secret).Success? ==>
      && WellFormed(ParseEntry(secret).value)
      && ParseEntry(secret).value.outputName == NormalizeOutputKey(ParseEntry(secret).value.secretKey)
    ensures ParseEntry(secret).Failure? ==> ParseEntry(secret) == Failure(InvalidPathAndKey(secret))
  {
    var parts := Tokens(secret);
    if |parts| != 2 {
      ParseEntryBadTokensUnnamed(secret);
    } else {
      assert parts[0] in parts && parts[1] in parts;
      ParseEntryUnnamed(secret, parts);
    }
  }

  // The four outcomes of `ParseEntry`, one per path through its body.

  lemma SplitRenameAt(secret: string, i: int)
    requires i == LastIndexOf(secret, RenameSigil) && i > -1
    ensures SplitRename(secret) == (Trim(secret[..i]), Some(Trim(secret[i + 1..])))
  {
  }

  lemma ParseEntryMissingName(secret: string, i: int)
    requires i == LastIndexOf(secret, RenameSigil) && i > -1
    requires |Trim(secret[i + 1..])| < 1
    ensures ParseEntry(secret) == Failure(MissingOutputName(secret))
  {
    SplitRenameAt(secret, i);
  }

  lemma ParseEntryBadTokensUnnamed(secret: string)
    requires LastIndexOf(secret, RenameSigil) == -1 && |Tokens(secret)| != 2
    ensures ParseEntry(secret) == Failure(InvalidPathAndKey(secret))
  {
  }

  lemma ParseEntryBadTokensNamed(secret: string, i: int)
    requires i == LastIndexOf(secret, RenameSigil) && i > -1
    requires |Trim(secret[i + 1..])| >= 1 && |Tokens(Trim(secret[..i]))| != 2
    ensures ParseEntry(secret) == Failure(InvalidPathAndKey(secret))
  {
    SplitRenameAt(secret, i);
  }

  lemma PathAndKeyNamed(secret: string, path: string, name: string, parts: seq<string>)
    requires name != [] && parts == Tokens(path) && |parts| == 2
    ensures ParsePathAndKey(secret, path, Some(name)) == Success(SecretReference(parts[0], parts[1], name))
  {
  }

  lemma ParseEntryNamed(secret: string, i: int, parts: seq<string>)
    requires i == LastIndexOf(secret, RenameSigil) && i > -1
    requires |Trim(secret[i + 1..])| >= 1
    requires parts == Tokens(Trim(secret[..i])) && |parts| == 2
    ensures ParseEntry(secret) == Success(SecretReference(parts[0], parts[1], Trim(secret[i + 1..])))
  {
    SplitRenameAt(secret, i);
    PathAndKeyNamed(secret, Trim(secret[..i]), Trim(secret[i + 1..]), parts);
  }

  lemma ParseEntryUnnamed(secret: string, parts: seq<string>)
    requires LastIndexOf(secret, RenameSigil) == -1
    requires parts == Tokens(secret) && |parts| == 2
    ensures ParseEntry(secret) == Success(SecretReference(parts[0], parts[1], NormalizeOutputKey(parts[1])))
  {
  }

  /** An entry with a `|` at `i` and none after it: the name is the trimmed
      text after it, and an empty name fails before the tokens are looked
      at; otherwise the entry parses exactly when the text before `i` has
      two tokens, and the name is used as it is. */
  lemma ExplicitName(secret: string, i: nat)
    requires i < |secret| && secret[i] == RenameSigil && RenameSigil !in secret[i + 1..]
    ensures Trim(secret[i + 1..]) == [] ==> ParseEntry(secret) == Failure(MissingOutputName(secret))
    ensures Trim(secret[i + 1..]) != [] ==>
      (ParseEntry(secret).Success? <==> |Tokens(secret[..i])| == 2)
    ensures Trim(secret[i + 1..]) != [] && |Tokens(secret[..i])| != 2 ==>
      ParseEntry(secret) == Failure(InvalidPathAndKey(secret))
    ensures ParseEntry(secret).Success? ==>
      ParseEntry(secret).value == SecretReference(Tokens(secret[..i])[0], Tokens(secret[..i])[1],
                                                  Trim(secret[i + 1..]))
  {
    LastIndexOfIs(secret, RenameSigil, i);
    TokensOfTrim(secret[..i]);
  }

  /** An entry without `|`: it parses exactly when it has two tokens, and
      the name is derived from the key. */
  lemma DerivedName(secret: string)
    requires RenameSigil !in secret
    ensures ParseEntry(secret).Success? <==> |Tokens(secret)| == 2
    ensures ParseEntry(secret).Success? ==>
      ParseEntry(secret).value == SecretReference(Tokens(secret)[0], Tokens(secret)[1],
                                                  NormalizeOutputKey(Tokens(secret)[1]))
  {
  }

  /** `<path> <key>` and the two tokens it is made of. */
  lemma PathAndKey(path: string, key: string)
    requires path != [] && NoWhitespace(path) && key != [] && NoWhitespace(key)
    ensures Tokens(path + " " + key) == [path, key]
    ensures Trim(path + " " + key) == path + " " + key
  {
    var joined := path + " " + key;
    assert Join([path, key], ' ') == joined;
    TokensOfJoin([path, key]);
    TrimFixed(joined);
  }

  /** Writing a reference as `<path> <key>|<name>` and parsing it gives the
      reference back; path and key may themselves hold `|`. */
  lemma EntryWithName(path: string, key: string, name: string)
    requires path != [] && NoWhitespace(path) && key != [] && NoWhitespace(key)
    requires name != [] && Trim(name) == name && RenameSigil !in name
    ensures ParseEntry(path + " " + key + "|" + name) == Success(SecretReference(path, key, name))
  {
    var before := path + " " + key;
    var secret := before + "|" + name;
    assert secret[|before|] == RenameSigil;
    assert secret[|before| + 1..] == name;
    assert secret[..|before|] == before;
    PathAndKey(path, key);
    ExplicitName(secret, |before|);
  }

  /** Writing a reference as `<path> <key>` and parsing it gives the path,
      the key and the name derived from the key. */
  lemma EntryWithoutName(path: string, key: string)
    requires path != [] && NoWhitespace(path) && key != [] && NoWhitespace(key)
    requires RenameSigil !in path && RenameSigil !in key
    ensures ParseEntry(path + " " + key)
         == Success(SecretReference(path, key, NormalizeOutputKey(key)))
  {
    PathAndKey(path, key);
    assert RenameSigil !in path + " " + key;
    DerivedName(path + " " + key);
  }

  /** A key of one character such as `.` yields an empty derived name, and
      the entry still parses. */
  lemma EmptyDerivedName(path: string)
    requires path != [] && NoWhitespace(path) && RenameSigil !in path
    ensures ParseEntry(path + " .") == Success(SecretReference(path, ".", ""))
  {
    assert path + " ." == path + " " + ".";
    NormalizeEmptyIff(".");
    EntryWithoutName(path, ".");
  }

  // ---------------------------------------------------------------------------
  // The whole input
  // ---------------------------------------------------------------------------

  /** The results of a list of parses gathered into one: all the values in
      order, or the first error; nothing partial. */
  function Collect<T>(results: seq<Result<T>>): (r: Result<seq<T>>)
    ensures r.Success? <==> forall n :: 0 <= n < |results| ==> results[n].Success?
    ensures r.Success? ==> |r.value| == |results|
    ensures r.Success? ==> forall n :: 0 <= n < |results| ==> results[n] == Success(r.value[n])
    ensures r.Failure? ==> exists n :: 0 <= n < |results| && results[n] == Failure(r.error)
                                       && forall m :: 0 <= m < n ==> results[m].Success?
  {
    if results == [] then Success([])
    else
      match results[0]
      case Failure(e) => Failure(e)
      case Success(head) =>
        match Collect(results[1..])
        case Failure(e) =>
          CollectConsFailure(results, e);
          Failure(e)
        case Success(rest) =>
          CollectConsSuccess(results, head, rest);
          Success([head] + rest)
  }

  /** The failure of the tail, found behind a successful head. */
  lemma CollectConsFailure<T>(results: seq<Result<T>>, e: ParseError)
    requires results != [] && results[0].Success?
    requires exists n :: 0 <= n < |results[1..]| && results[1..][n] == Failure(e)
                         && forall m :: 0 <= m < n ==> results[1..][m].Success?
    ensures exists n :: 0 <= n < |results| && results[n] == Failure(e)
                        && forall m :: 0 <= m < n ==> results[m].Success?
  {
    var k :| 0 <= k < |results| - 1 && results[1..][k] == Failure(e)
             && forall m :: 0 <= m < k ==> results[1..][m].Success?;
    assert results[k + 1] == Failure(e);
    assert forall m :: 0 < m < k + 1 ==> results[m] == results[1..][m - 1];
  }

  /** The values of a successful head and a successful tail, in order. */
  lemma CollectConsSuccess<T>(results: seq<Result<T>>, head: T, rest: seq<T>)
    requires results != [] && results[0] == Success(head)
    requires |rest| == |results| - 1
    requires forall n :: 0 <= n < |results[1..]| ==> results[1..][n] == Success(rest[n])
    ensures forall n :: 0 <= n < |results| ==> results[n] == Success(([head] + rest)[n])
  {
    assert forall n :: 0 < n < |results| ==> results[n] == results[1..][n - 1];
  }

  /** The error gathered is that of the first failure. */
  lemma CollectFailsAt<T>(results: seq<Result<T>>, n: nat)
    requires n < |results| && results[n].Failure?
    requires forall m :: 0 <= m < n ==> results[m].Success?
    ensures Collect(results) == Failure(results[n].error)
  {
    var k :| 0 <= k < |results| && results[k] == Failure(Collect(results).error)
             && forall m :: 0 <= m < k ==> results[m].Success?;
    assert !(k < n) && !(n < k);
  }

  /** When every result is a success, the values are gathered in order. */
  lemma CollectSucceeds<T>(results: seq<Result<T>>, values: seq<T>)
    requires |values| == |results|
    requires forall n :: 0 <= n < |results| ==> results[n] == Success(values[n])
    ensures Collect(results) == Success(values)
  {
    var r := Collect(results);
    assert forall n :: 0 <= n < |results| ==> results[n].Success?;
    assert r.value == values by {
      forall n | 0 <= n < |results|
        ensures r.value[n] == values[n]
      {
        assert results[n] == Success(r.value[n]);
      }
    }
  }

  lemma CollectSingle<T>(result: Result<T>)
    ensures Collect([result]) == if result.Failure? then Failure(result.error) else Success([result.value])
  {
    assert [result][1..] == [];
    assert Collect([result][1..]) == Success([]);
    if result.Success? {
      assert [result.value] + [] == [result.value];
    }
  }

  /** Gathering two lists one after the other: the first error, or both
      lists of values in order. */
  lemma {:induction false} CollectAppend<T>(xs: seq<Result<T>>, ys: seq<Result<T>>)
    ensures Collect(xs + ys) ==
      if Collect(xs).Failure? then Collect(xs)
      else if Collect(ys).Failure? then Collect(ys)
      else Success(Collect(xs).value + Collect(ys).value)
  {
    if xs == [] {
      assert xs + ys == ys;
      assert Collect(ys).Success? ==> [] + Collect(ys).value == Collect(ys).value;
    } else {
      assert (xs + ys)[0] == xs[0];
      assert (xs + ys)[1..] == xs[1..] + ys;
      CollectAppend(xs[1..], ys);
      if xs[0].Success? && Collect(xs[1..]).Success? && Collect(ys).Success? {
        assert [xs[0].value] + (Collect(xs[1..]).value + Collect(ys).value)
            == [xs[0].value] + Collect(xs[1..]).value + Collect(ys).value;
      }
    }
  }

  /** Each entry parsed on its own. */
  function ParseEach(entries: seq<string>): (results: seq<Result<SecretReference>>)
    ensures |results| == |entries|
  {
    if entries == [] then [] else [ParseEntry(entries[0])] + ParseEach(entries[1..])
  }

  lemma {:induction false} ParseEachAt(entries: seq<string>, n: nat)
    requires n < |entries|
    ensures ParseEach(entries)[n] == ParseEntry(entries[n])
  {
    if n > 0 {
      ParseEachAt(entries[1..], n - 1);
    }
  }

  lemma {:induction false} ParseEachAppend(xs: seq<string>, ys: seq<string>)
    ensures ParseEach(xs + ys) == ParseEach(xs) + ParseEach(ys)
  {
    if xs == [] {
      assert xs + ys == ys;
    } else {
      assert (xs + ys)[1..] == xs[1..] + ys;
      ParseEachAppend(xs[1..], ys);
    }
  }

  /** The parse of a list of entries: one reference per entry, in order, or
      the error of the first entry that fails. */
  function ParseAll(entries: seq<string>): (r: Result<seq<SecretReference>>)
  {
    Collect(ParseEach(entries))
  }

  /** The parse of a list of entries succeeds exactly when every entry
      parses, and then holds one well-formed reference per entry, in order;
      otherwise it fails with the error of the first entry that fails. */
  lemma ParseAllSpec(entries: seq<string>)
    ensures ParseAll(entries).Success? <==> forall n :: 0 <= n < |entries| ==> ParseEntry(entries[n]).Success?
    ensures ParseAll(entries).Success? ==>
      && |ParseAll(entries).value| == |entries|
      && forall n :: 0 <= n < |entries| ==> ParseEntry(entries[n]) == Success(ParseAll(entries).value[n])
    ensures ParseAll(entries).Failure? ==>
      exists n :: 0 <= n < |entries| && ParseEntry(entries[n]) == Failure(ParseAll(entries).error)
                  && forall m :: 0 <= m < n ==> ParseEntry(entries[m]).Success?
  {
    forall n | 0 <= n < |entries| {
      ParseEachAt(entries, n);
    }
  }

  /** Every reference of a successful parse is well formed. */
  lemma ParseAllWellFormed(entries: seq<string>)
    ensures ParseAll(entries).Success? ==> forall ref :: ref in ParseAll(entries).value ==> WellFormed(ref)
  {
    ParseAllSpec(entries);
    forall n | 0 <= n < |entries| {
      ParseEntrySpec(entries[n]);
    }
  }

  /** The parse of two lists of entries one after the other: the first
      error, or both lists of references in order. */
  lemma ParseAllAppend(xs: seq<string>, ys: seq<string>)
    ensures ParseAll(xs + ys) ==
      if ParseAll(xs).Failure? then ParseAll(xs)
      else if ParseAll(ys).Failure? then ParseAll(ys)
      else Success(ParseAll(xs).value + ParseAll(ys).value)
  {
    ParseEachAppend(xs, ys);
    CollectAppend(ParseEach(xs), ParseEach(ys));
  }

  /** The body of the parser's loop: one entry, with the path and the name
      reassigned as the entry is taken apart. */
  method ParseSecret(secret: string) returns (r: Result<SecretReference>)
    ensures r == ParseEntry(secret)
  {
    var path := secret;
    var outputName: Option<string> := None;

    var renameSigilIndex := LastIndexOf(secret, RenameSigil);
    if renameSigilIndex > -1 {
      path := Trim(secret[..renameSigilIndex]);
      outputName := Some(Trim(secret[renameSigilIndex + 1..]));
      if |outputName.value| < 1 {
        ParseEntryMissingName(secret, renameSigilIndex);
        return Failure(MissingOutputName(secret));
      }
    }

    var pathParts := Tokens(path);
    if |pathParts| != 2 {
      if renameSigilIndex > -1 {
        ParseEntryBadTokensNamed(secret, renameSigilIndex);
      } else {
        ParseEntryBadTokensUnnamed(secret);
      }
      return Failure(InvalidPathAndKey(secret));
    }

    var secretPath, secretKey := pathParts[0], pathParts[1];
    if outputName.None? || outputName.value == [] {
      outputName := Some(NormalizeOutputKey(secretKey));
      ParseEntryUnnamed(secret, pathParts);
    } else {
      ParseEntryNamed(secret, renameSigilIndex, pathParts);
    }
    return Success(SecretReference(secretPath, secretKey, outputName.value));
  }

  /** Parsing one more entry: the parse so far fails, or the entry's
      reference is appended to it. */
  lemma ParseAllSnoc(entries: seq<string>, n: nat)
    requires n < |entries|
    ensures ParseAll(entries[..n + 1]) ==
      if ParseAll(entries[..n]).Failure? then ParseAll(entries[..n])
      else if ParseEntry(entries[n]).Failure? then Failure(ParseEntry(entries[n]).error)
      else Success(ParseAll(entries[..n]).value + [ParseEntry(entries[n]).value])
  {
    assert entries[..n + 1] == entries[..n] + [entries[n]];
    ParseAllAppend(entries[..n], [entries[n]]);
    ParseAllSingle(entries[n]);
  }

  lemma ParseAllSingle(entry: string)
    ensures ParseAll([entry]) ==
      if ParseEntry(entry).Failure? then Failure(ParseEntry(entry).error) else Success([ParseEntry(entry).value])
  {
    assert ParseEach([entry]) == [ParseEntry(entry)];
    CollectSingle(ParseEntry(entry));
  }

  /** Once a prefix of the entries fails, the whole list fails with the same
      error. */
  lemma ParseAllPrefixFails(entries: seq<string>, n: nat)
    requires n <= |entries| && ParseAll(entries[..n]).Failure?
    ensures ParseAll(entries) == ParseAll(entries[..n])
  {
    assert entries == entries[..n] + entries[n..];
    ParseAllAppend(entries[..n], entries[n..]);
  }

  /** The parser of the `secrets` input: the references of its entries in
      order, or the error of the first entry that is malformed. */
  method ParseSecretsInput(secretsInput: string) returns (r: Result<seq<SecretReference>>)
    ensures r == ParseAll(Entries(secretsInput))
  {
    var secrets := Entries(secretsInput);
    var output: seq<SecretReference> := [];
    for n := 0 to |secrets|
      invariant ParseAll(secrets[..n]) == Success(output)
    {
      var parsed := ParseSecret(secrets[n]);
      ParseAllSnoc(secrets, n);
      if parsed.Failure? {
        ParseAllPrefixFails(secrets, n + 1);
        return Failure(parsed.error);
      }
      output := output + [parsed.value];
    }
    assert secrets[..|secrets|] == secrets;
    return Success(output);
  }

  /** Inputs joined by `;` parse to the first error, or to both lists of
      references in order. */
  lemma ParseInputAppend(a: string, b: string)
    ensures ParseAll(Entries(a + [EntrySeparator] + b)) ==
      if ParseAll(Entries(a)).Failure? then ParseAll(Entries(a))
      else if ParseAll(Entries(b)).Failure? then ParseAll(Entries(b))
      else Success(ParseAll(Entries(a)).value + ParseAll(Entries(b)).value)
  {
    EntriesAppend(a, b);
    ParseAllAppend(Entries(a), Entries(b));
  }
}
