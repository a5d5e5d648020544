/**
 * src/Env.php: the .env loader. A process-wide table of variables ($_ENV) and a flag that
 * makes the loader run at most once. Reading the file is not modelled: the loader receives
 * its lines, or None when the file is missing or cannot be read.
 */
module Env {
  import opened Strings

  /** The position of the first occurrence of c, as explode($c, $s, 2) splits. */
  function FirstIndexOf(s: string, c: char): (r: Option<nat>)
    ensures r.None? <==> c !in s
    ensures r.Some? ==> r.value < |s| && s[r.value] == c && c !in s[..r.value]
  {
    if s == [] then None
    else if s[0] == c then Some(0)
    else
      match FirstIndexOf(s[1..], c)
      case None => None
      case Some(i) =>
        assert s[..i + 1] == [s[0]] + s[1..][..i];
        Some(i + 1)
  }

  /** A value wrapped in a matching pair of double or single quotes. */
  predicate IsQuoted(v: string)
  {
    |v| >= 1 && ((v[0] == '"' && v[|v| - 1] == '"') || (v[0] == '\'' && v[|v| - 1] == '\''))
  }

  /** The quote removal: substr($value, 1, -1), which is "" for a lone quote character. */
  function StripQuotes(v: string): (r: string)
    ensures !IsQuoted(v) ==> r == v
    ensures IsQuoted(v) ==> |r| == if |v| >= 2 then |v| - 2 else 0
    ensures IsQuoted(v) && |v| >= 2 ==> v == [v[0]] + r + [v[0]]
  {
    if !IsQuoted(v) then v
    else if |v| == 1 then ""
    else
      var r := v[1..|v| - 1];
      assert v == [v[0]] + r + [v[|v| - 1]];
      r
  }

  /** One line of the file as the loop body reads it: None for a skipped line (blank,
      including "0", a comment, or no '='), otherwise the key and the value it assigns. The
      key is trimmed and holds no '=', since the split is at the first '='. */
  function ParseLine(line: string): (r: Option<(string, string)>)
    ensures PhpEmpty(Trim(line)) ==> r.None?
    ensures Trim(line) != [] && Trim(line)[0] == '#' ==> r.None?
    ensures '=' !in Trim(line) ==> r.None?
    ensures r.Some? ==> '=' !in r.value.0 && Trim(r.value.0) == r.value.0
  {
    var t := Trim(line);
    if PhpEmpty(t) || t[0] == '#' then None
    else
      match FirstIndexOf(t, '=')
      case None => None
      case Some(i) =>
        TrimIdempotent(t[..i]);
        TrimInfix(t[..i]);
        Some((Trim(t[..i]), StripQuotes(Trim(t[i + 1..]))))
  }

  /** Trimming adds no character: the trimmed string is a slice of the original. */
  lemma TrimInfix(s: string)
    ensures forall ch :: ch in Trim(s) ==> ch in s
  {
    var l := TrimLeft(s);
    var r := TrimRight(l);
    var a := |s| - |l|;
    assert r == l[..|r|] == s[a..a + |r|];
    forall ch | ch in r
      ensures ch in s
    {
      var k :| 0 <= k < |r| && r[k] == ch;
      assert s[a + k] == ch;
    }
  }

  /** A string with no trim character at either end is its own trim. */
  lemma TrimOfTrimmed(s: string)
    requires s != [] && !IsTrimChar(s[0]) && !IsTrimChar(s[|s| - 1])
    ensures Trim(s) == s
  {
  }

  /** In "KEY=VALUE" with a key free of '=', the split happens right after the key. */
  lemma SplitAfterKey(key: string, value: string)
    requires '=' !in key
    ensures FirstIndexOf(key + "=" + value, '=') == Some(|key|)
  {
    var line := key + "=" + value;
    assert line[..|key|] == key && line[|key|] == '=';
  }

  /** A line "KEY=VALUE" whose key holds no '=' and does not trim to a comment parses to the
      trimmed key and the trimmed, quote-stripped value; padding around the '=' and an empty
      key are allowed. */
  lemma ParseAssignment(key: string, value: string)
    requires '=' !in key && (Trim(key) == [] || Trim(key)[0] != '#')
    ensures ParseLine(key + "=" + value) == Some((Trim(key), StripQuotes(Trim(value))))
  {
    AssignmentNotSkipped(key, value);
    AssignmentSplitsAtKey(key, value);
    AssignmentParts(key, value);
    ParseLineOf(key + "=" + value, Trim(key + "=" + value), |TrimLeft(key)|, Trim(key), StripQuotes(Trim(value)));
  }

  /** The trimmed assignment is neither blank nor a comment. */
  lemma AssignmentNotSkipped(key: string, value: string)
    requires Trim(key) == [] || Trim(key)[0] != '#'
    ensures var t := Trim(key + "=" + value); t != [] && t != "0" && t[0] != '#'
  {
    TrimOfAssignment(key, value);
    AssignmentPieces(TrimLeft(key), TrimRight(value));
    KeyStartsKept(key);
  }

  /** Its first '=' is the one after the key. */
  lemma AssignmentSplitsAtKey(key: string, value: string)
    requires '=' !in key
    ensures FirstIndexOf(Trim(key + "=" + value), '=') == Some(|TrimLeft(key)|)
  {
    TrimOfAssignment(key, value);
    NoCharAfterTrimLeft(key, '=');
    SplitAfterKey(TrimLeft(key), TrimRight(value));
  }

  /** Around that '=' lie the key and the value, up to trimming. */
  lemma AssignmentParts(key: string, value: string)
    ensures var t, i := Trim(key + "=" + value), |TrimLeft(key)|;
      i < |t| && Trim(t[..i]) == Trim(key) && Trim(t[i + 1..]) == Trim(value)
  {
    TrimOfAssignment(key, value);
    AssignmentPieces(TrimLeft(key), TrimRight(value));
    TrimOfTrimLeft(key);
    TrimAfterTrimRight(value);
  }

  /** The parts of kl + "=" + m. */
  lemma AssignmentPieces(kl: string, m: string)
    ensures var t := kl + "=" + m;
      |t| == |kl| + 1 + |m| && t[..|kl|] == kl && t[|kl|] == '=' && t[|kl| + 1..] == m &&
      t[0] == (if kl == [] then '=' else kl[0])
  {
  }

  /** The left pass removes characters and adds none. */
  lemma NoCharAfterTrimLeft(s: string, c: char)
    requires c !in s
    ensures c !in TrimLeft(s)
  {
    var l := TrimLeft(s);
    forall k | 0 <= k < |l|
      ensures l[k] != c
    {
      assert l[k] == s[|s| - |l| + k];
    }
  }

  /** A key with a kept character trims to a string that starts with it. */
  lemma KeyStartsKept(key: string)
    ensures TrimLeft(key) != [] ==> Trim(key) != [] && Trim(key)[0] == TrimLeft(key)[0]
  {
  }

  /** Trimming after the left pass is trimming. */
  lemma TrimOfTrimLeft(s: string)
    ensures Trim(TrimLeft(s)) == Trim(s)
  {
    var l := TrimLeft(s);
    assert TrimLeft(l) == l;
  }

  /** trim on "KEY=VALUE": the key loses its leading trim characters and the value its
      trailing ones; the '=' stops both passes. */
  lemma TrimOfAssignment(key: string, value: string)
    ensures Trim(key + "=" + value) == TrimLeft(key) + "=" + TrimRight(value)
  {
    var kl := TrimLeft(key);
    var rest := "=" + value;
    AppendAssoc(key, "=", value);
    TrimLeftBeforeKept(key, rest);
    AppendAssoc(kl, "=", value);
    TrimRightAppend(kl + "=", value);
  }

  /** The loop body on a line whose trimmed form is neither blank nor a comment. */
  lemma ParseLineOf(line: string, t: string, i: nat, key: string, value: string)
    requires Trim(line) == t && t != [] && t != "0" && t[0] != '#'
    requires FirstIndexOf(t, '=') == Some(i)
    requires Trim(t[..i]) == key && StripQuotes(Trim(t[i + 1..])) == value
    ensures ParseLine(line) == Some((key, value))
  {
  }

  /** Writing "KEY=VALUE" and reading the line back gives the pair again, for a key that
      is trimmed, free of '=', not a comment, and a value that is trimmed and not quoted. */
  lemma ParseLineRoundTrip(key: string, value: string)
    requires key != [] && Trim(key) == key && '=' !in key && key[0] != '#'
    requires Trim(value) == value && !IsQuoted(value)
    ensures ParseLine(key + "=" + value) == Some((key, value))
  {
    ParseAssignment(key, value);
  }

  /** A value written in quotes loses exactly the outer pair, once. */
  lemma QuotedValueStripsOnce(key: string, inner: string, q: char)
    requires q == '"' || q == '\''
    requires key != [] && Trim(key) == key && '=' !in key && key[0] != '#'
    ensures ParseLine(key + "=" + ([q] + inner + [q])) == Some((key, inner))
  {
    var value := [q] + inner + [q];
    TrimOfTrimmed(value);
    ParseAssignment(key, value);
    assert value[1..|value| - 1] == inner;
  }

  /** One parsed line per line of the file, in order. */
  function Entries(lines: seq<string>): (r: seq<Option<(string, string)>>)
    ensures |r| == |lines| && forall i :: 0 <= i < |lines| ==> r[i] == ParseLine(lines[i])
  {
    seq(|lines|, i requires 0 <= i < |lines| => ParseLine(lines[i]))
  }

  /** The table after the loop has read `entries` into `vars`: each parsed key is added unless
      it is already present. */
  function Loaded(vars: map<string, string>, entries: seq<Option<(string, string)>>): (r: map<string, string>)
    ensures forall k :: k in vars ==> k in r && r[k] == vars[k]
  {
    if entries == [] then vars
    else
      var before := Loaded(vars, entries[..|entries| - 1]);
      match entries[|entries| - 1]
      case None => before
      case Some((k, v)) => if k in before then before else before[k := v]
  }

  /** One more line read: the loop body's step. */
  lemma LoadedStep(vars: map<string, string>, entries: seq<Option<(string, string)>>, i: nat,
                   entry: Option<(string, string)>)
    requires i < |entries| && entries[i] == entry
    ensures var before := Loaded(vars, entries[..i]);
      Loaded(vars, entries[..i + 1]) ==
        if entry.Some? && entry.value.0 !in before then before[entry.value.0 := entry.value.1]
        else before
  {
    assert entries[..i + 1][..i] == entries[..i];
  }

  /** The value the first line that defines `key` assigns to it. */
  function FirstDefinition(entries: seq<Option<(string, string)>>, key: string): Option<string>
  {
    if entries == [] then None
    else match entries[0]
      case Some((k, v)) => if k == key then Some(v) else FirstDefinition(entries[1..], key)
      case None => FirstDefinition(entries[1..], key)
  }

  lemma {:induction false} FirstDefinitionAppend(entries: seq<Option<(string, string)>>,
                                                 entry: Option<(string, string)>, key: string)
    ensures FirstDefinition(entries + [entry], key) ==
      if FirstDefinition(entries, key).Some? then FirstDefinition(entries, key)
      else if entry.Some? && entry.value.0 == key then Some(entry.value.1)
      else None
  {
    if entries != [] {
      assert (entries + [entry])[1..] == entries[1..] + [entry];
      FirstDefinitionAppend(entries[1..], entry, key);
    } else {
      assert [entry][1..] == [];
    }
  }

  /** No overwriting: a key already present keeps its value, and any other key ends up with
      the value of its first definition in the file, or stays absent. */
  lemma {:induction false} LoadedKeepsFirst(vars: map<string, string>,
                                            entries: seq<Option<(string, string)>>, key: string)
    ensures key in vars ==> key in Loaded(vars, entries) && Loaded(vars, entries)[key] == vars[key]
    ensures key !in vars ==>
      (key in Loaded(vars, entries) <==> FirstDefinition(entries, key).Some?) &&
      (key in Loaded(vars, entries) ==> Loaded(vars, entries)[key] == FirstDefinition(entries, key).value)
  {
    if entries != [] {
      var init := entries[..|entries| - 1];
      var last := entries[|entries| - 1];
      LoadedKeepsFirst(vars, init, key);
      FirstDefinitionAppend(init, last, key);
      assert init + [last] == entries;
    }
  }

  /** Every key the loader adds comes from some line of the file. */
  lemma LoadedKeysComeFromLines(vars: map<string, string>, entries: seq<Option<(string, string)>>)
    ensures forall k :: k in Loaded(vars, entries) ==> k in vars || FirstDefinition(entries, k).Some?
  {
    forall k | k in Loaded(vars, entries)
      ensures k in vars || FirstDefinition(entries, k).Some?
    {
      LoadedKeepsFirst(vars, entries, k);
    }
  }

  /** $_ENV and the static $loaded flag. */
  class Environment {
    var vars: map<string, string>
    var loaded: bool

    constructor (initial: map<string, string>)
      ensures vars == initial && !loaded
    {
      vars := initial;
      loaded := false;
    }

    /** Env::load: a no-op once loaded; a missing or unreadable file returns without setting
        the flag; otherwise the foreach adds every new key, then the flag is set. */
    method Load(file: Option<seq<string>>)
      modifies this
      ensures old(loaded) || file.None? ==> vars == old(vars) && loaded == old(loaded)
      ensures !old(loaded) && file.Some? ==> vars == Loaded(old(vars), Entries(file.value)) && loaded
    {
      if loaded {
        return;
      }
      if file.None? {
        return;
      }
      var lines := file.value;
      ghost var entries := Entries(lines);
      var i := 0;
      while i < |lines|
        invariant 0 <= i <= |lines|
        invariant vars == Loaded(old(vars), entries[..i])
      {
        var parsed := ParseLine(lines[i]);
        LoadedStep(old(vars), entries, i, parsed);
        Assign(parsed);
        i := i + 1;
      }
      assert entries[..i] == entries;
      loaded := true;
    }

    /** The body of the foreach once the line is parsed: a new key is stored, an existing
        one is left alone. */
    method Assign(parsed: Option<(string, string)>)
      modifies this
      ensures loaded == old(loaded)
      ensures vars == if parsed.Some? && parsed.value.0 !in old(vars)
                      then old(vars)[parsed.value.0 := parsed.value.1] else old(vars)
    {
      if parsed.Some? {
        var (key, value) := parsed.value;
        if key !in vars {
          vars := vars[key := value];
        }
      }
    }

    /** Env::get: the stored value, or the default. */
    function Get(key: string, default: Option<string>): (r: Option<string>)
      reads this
      ensures key in vars ==> r == Some(vars[key])
      ensures key !in vars ==> r == default
    {
      if key in vars then Some(vars[key]) else default
    }

    /** Env::has: set exactly when get without a default finds a value. */
    predicate Has(key: string): (r: bool)
      reads this
      ensures r <==> Get(key, None).Some?
    {
      key in vars
    }
  }
}
