/** Whole inputs of the `secrets` grammar and worked entries, parsed through
    the model. */
module Scenarios {
  import opened JsStrings
  import opened SecretsInput

  /** An input made of one trimmed entry parses to that entry's reference,
      or fails with that entry's error. */
  lemma SingleEntryInput(entry: string)
    requires entry != [] && EntrySeparator !in entry && Trim(entry) == entry
    ensures ParseAll(Entries(entry)) ==
      if ParseEntry(entry).Failure? then Failure(ParseEntry(entry).error) else Success([ParseEntry(entry).value])
  {
    assert Join([entry], EntrySeparator) == entry;
    EntriesOfJoin([entry]);
    ParseAllSingle(entry);
  }

  /** The input `<path> <key>`, with a key made of `[A-Za-z0-9_-]`: one
      reference, named by the upper-cased key. */
  lemma DerivedNameInput(path: string, key: string)
    requires path != [] && NoWhitespace(path) && key != [] && NoWhitespace(key)
    requires RenameSigil !in path && RenameSigil !in key && AllWordOrHyphen(key)
    requires EntrySeparator !in path && EntrySeparator !in key
    ensures ParseAll(Entries(path + " " + key)) == Success([SecretReference(path, key, UpperAscii(key))])
  {
    var entry := path + " " + key;
    assert EntrySeparator !in entry;
    UnnamedSingleInput(path, key);
    assert NormalizeOutputKey(key) == UpperAscii(key);
  }

  lemma UnnamedSingleInput(path: string, key: string)
    requires path != [] && NoWhitespace(path) && key != [] && NoWhitespace(key)
    requires RenameSigil !in path && RenameSigil !in key
    requires EntrySeparator !in path + " " + key
    ensures ParseAll(Entries(path + " " + key)) == Success([SecretReference(path, key, NormalizeOutputKey(key))])
  {
    PathAndKey(path, key);
    EntryWithoutName(path, key);
    SingleEntryInput(path + " " + key);
  }

  /** White space around the `|` of an entry does not matter: the tokens
      before it are trimmed and so is the name after it. */
  lemma SpacedName(path: string, key: string, w1: string, w2: string, name: string)
    requires path != [] && NoWhitespace(path) && key != [] && NoWhitespace(key)
    requires AllWhitespace(w1) && AllWhitespace(w2) && RenameSigil !in w2
    requires name != [] && Trim(name) == name && RenameSigil !in name
    ensures ParseEntry((path + " " + key + w1) + "|" + (w2 + name)) == Success(SecretReference(path, key, name))
  {
    var before, after := path + " " + key + w1, w2 + name;
    var secret := before + "|" + after;
    AroundOne(before, RenameSigil, after);
    assert RenameSigil !in after;
    SpacedNameParts(path, key, w1, w2, name);
    ExplicitName(secret, |before|);
  }

  /** The parts of a concatenation around one element. */
  lemma AroundOne<T>(x: seq<T>, c: T, y: seq<T>)
    ensures (x + [c] + y)[|x|] == c && (x + [c] + y)[..|x|] == x && (x + [c] + y)[|x| + 1..] == y
  {
  }

  lemma SpacedNameParts(path: string, key: string, w1: string, w2: string, name: string)
    requires path != [] && NoWhitespace(path) && key != [] && NoWhitespace(key)
    requires AllWhitespace(w1) && AllWhitespace(w2)
    requires name != [] && Trim(name) == name
    ensures Tokens(path + " " + key + w1) == [path, key]
    ensures Trim(w2 + name) == name
  {
    PathAndKey(path, key);
    TokensTrailing(path + " " + key, w1);
    assert w2 + name + [] == w2 + name;
    TrimUnique(w2, name, []);
  }

  /** The input `<path> <key>|<name>`: one reference with that name. */
  lemma ExplicitNameInput(path: string, key: string, name: string)
    requires path != [] && NoWhitespace(path) && key != [] && NoWhitespace(key)
    requires name != [] && Trim(name) == name && RenameSigil !in name
    requires EntrySeparator !in path && EntrySeparator !in key && EntrySeparator !in name
    ensures ParseAll(Entries(path + " " + key + "|" + name)) == Success([SecretReference(path, key, name)])
  {
    var entry := path + " " + key + "|" + name;
    NamedEntryShape(path, key, name);
    EntryWithName(path, key, name);
    SingleEntryInput(entry);
  }

  lemma NamedEntryShape(path: string, key: string, name: string)
    requires path != [] && NoWhitespace(path) && name != [] && Trim(name) == name
    requires EntrySeparator !in path && EntrySeparator !in key && EntrySeparator !in name
    ensures Trim(path + " " + key + "|" + name) == path + " " + key + "|" + name
    ensures EntrySeparator !in path + " " + key + "|" + name
  {
    var entry := path + " " + key + "|" + name;
    var middle := " " + key + "|";
    assert entry == path + middle + name;
    assert entry[0] == path[0];
    assert entry[|entry| - 1] == name[|name| - 1];
    TrimFixed(entry);
  }

  /** An entry without `|` whose words are not exactly two fails with the
      path-and-key error, whatever their number. */
  lemma WrongTokenCount(tokens: seq<string>)
    requires forall t :: t in tokens ==> t != [] && NoWhitespace(t)
    requires |tokens| != 2 && RenameSigil !in Join(tokens, ' ')
    ensures ParseEntry(Join(tokens, ' ')) == Failure(InvalidPathAndKey(Join(tokens, ' ')))
  {
    TokensOfJoin(tokens);
    ParseEntryBadTokensUnnamed(Join(tokens, ' '));
  }

  /** `path a b c`: three words after the path are not a path and a key. */
  lemma ThreeTokensEntry()
    ensures ParseEntry("path a b c") == Failure(InvalidPathAndKey("path a b c"))
  {
    var tokens := ["path", "a", "b", "c"];
    assert Join(tokens, ' ') == "path a b c";
    WrongTokenCount(tokens);
  }

  /** `<p1> <k1>;<p2> <k2>|<name>`, as in `p1 k1;p2 k2|OUT2`: two
      references in input order, the first named by its upper-cased key and
      the second by its explicit name. */
  lemma TwoEntriesInput(p1: string, k1: string, p2: string, k2: string, name: string)
    requires p1 != [] && NoWhitespace(p1) && k1 != [] && NoWhitespace(k1)
    requires RenameSigil !in p1 && RenameSigil !in k1 && AllWordOrHyphen(k1)
    requires EntrySeparator !in p1 && EntrySeparator !in k1
    requires p2 != [] && NoWhitespace(p2) && k2 != [] && NoWhitespace(k2)
    requires name != [] && Trim(name) == name && RenameSigil !in name
    requires EntrySeparator !in p2 && EntrySeparator !in k2 && EntrySeparator !in name
    ensures ParseAll(Entries((p1 + " " + k1) + ";" + (p2 + " " + k2 + "|" + name)))
         == Success([SecretReference(p1, k1, UpperAscii(k1)), SecretReference(p2, k2, name)])
  {
    DerivedNameInput(p1, k1);
    ExplicitNameInput(p2, k2, name);
    TwoInputs(p1 + " " + k1, p2 + " " + k2 + "|" + name,
              SecretReference(p1, k1, UpperAscii(k1)), SecretReference(p2, k2, name));
  }

  /** Two inputs of one reference each, joined by `;`, give both references
      in order. */
  lemma TwoInputs(a: string, b: string, first: SecretReference, second: SecretReference)
    requires ParseAll(Entries(a)) == Success([first])
    requires ParseAll(Entries(b)) == Success([second])
    ensures ParseAll(Entries(a + ";" + b)) == Success([first, second])
  {
    var joined := a + [EntrySeparator] + b;
    assert a + ";" + b == joined;
    ParseInputAppend(a, b);
    AppendedResults(ParseAll(Entries(a)), ParseAll(Entries(b)), ParseAll(Entries(joined)), first, second);
  }

  lemma AppendedResults(x: Result<seq<SecretReference>>, y: Result<seq<SecretReference>>,
                        z: Result<seq<SecretReference>>, first: SecretReference, second: SecretReference)
    requires x == Success([first]) && y == Success([second])
    requires z == if x.Failure? then x else if y.Failure? then y else Success(x.value + y.value)
    ensures z == Success([first, second])
  {
    assert [first] + [second] == [first, second];
  }

  /** The key `key` gives the name `KEY`. */
  lemma KeyName()
    ensures NormalizeOutputKey("key") == "KEY"
  {
    var u := UpperAscii("key");
    assert u[0] == 'K' && u[1] == 'E' && u[2] == 'Y';
  }

  /** `path key` parses to the path, the key and the derived name `KEY`. */
  lemma DerivedNameEntry()
    ensures ParseEntry("path key") == Success(SecretReference("path", "key", "KEY"))
  {
    assert "path" + " " + "key" == "path key";
    EntryWithoutName("path", "key");
    KeyName();
  }

  /** `path key | MY_NAME` parses to the name `MY_NAME`, used as it is. */
  lemma ExplicitNameEntry()
    ensures ParseEntry("path key | MY_NAME") == Success(SecretReference("path", "key", "MY_NAME"))
  {
    var path, key, space, name := "path", "key", " ", "MY_NAME";
    assert (path + " " + key + space) + "|" + (space + name) == "path key | MY_NAME";
    TrimFixed(name);
    SpacedName(path, key, space, space, name);
  }

  /** `path key |`: a `|` followed by nothing is an error, and the whole
      input fails with it. */
  lemma EmptyNameInput()
    ensures ParseAll(Entries("path key |")) == Failure(MissingOutputName("path key |"))
  {
    var secret := "path key |";
    assert secret[10..] == [];
    ExplicitName(secret, 9);
    TrimFixed(secret);
    SingleEntryInput(secret);
  }

  /** `a|b c|d|N`: only the last `|` starts the name, so path and key keep
      theirs. */
  lemma PipesInTokens()
    ensures ParseEntry("a|b c|d|N") == Success(SecretReference("a|b", "c|d", "N"))
  {
    assert "a|b" + " " + "c|d" + "|" + "N" == "a|b c|d|N";
    TrimFixed("N");
    EntryWithName("a|b", "c|d", "N");
  }
}
