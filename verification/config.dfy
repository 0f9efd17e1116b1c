/**
 * The configuration classes: a text file of `key=value` lines becomes a
 * read-only map. Empty lines and lines that start with `;` are skipped;
 * each other line is split at its first `=`, key and value are trimmed the
 * way Java's `String.trim` does (every character up to U+0020 counts as
 * blank), lines without a key are ignored, and a later line overrides an
 * earlier one for the same key.
 *
 * Finding the file and reading it are not modelled: the file system's
 * answer is an input (`File`).
 */
module Config {
  import opened Base

  /** Files larger than this many bytes are ignored. */
  const MAX_SIZE := 4096

  /** What the file system answers for a configuration name: no such file,
      a file whose size cannot be read, or a file of `size` bytes whose
      lines are `lines` (`None` when reading them fails). */
  datatype File = Missing | SizeFails | Present(size: int, lines: Option<seq<string>>)

  /** The characters `String.trim` removes. */
  predicate Blank(c: char)
  {
    c <= ' '
  }

  predicate AllBlank(s: string)
  {
    forall k :: 0 <= k < |s| ==> Blank(s[k])
  }

  /** How many blanks `s` starts with. */
  function Lead(s: string): (i: nat)
    ensures i <= |s| && AllBlank(s[..i]) && (i < |s| ==> !Blank(s[i]))
  {
    if s == [] || !Blank(s[0]) then 0
    else
      var i := 1 + Lead(s[1..]);
      assert s[..i] == [s[0]] + s[1..][..i - 1];
      i
  }

  /** Where the trailing blanks of `s` begin. */
  function Tail(s: string): (j: nat)
    ensures j <= |s| && AllBlank(s[j..]) && (j > 0 ==> !Blank(s[j - 1]))
  {
    if s == [] || !Blank(s[|s| - 1]) then |s|
    else
      var j := Tail(s[..|s| - 1]);
      assert s[j..] == s[..|s| - 1][j..] + [s[|s| - 1]];
      j
  }

  /** `String.trim`: `s` without its leading and trailing blanks. The result
      sits inside `s` with only blanks around it, and neither starts nor ends
      with a blank. */
  function Trim(s: string): (r: string)
    ensures Lead(s) + |r| <= |s| && s[Lead(s)..Lead(s) + |r|] == r
    ensures AllBlank(s[..Lead(s)]) && AllBlank(s[Lead(s) + |r|..])
    ensures r != [] ==> !Blank(r[0]) && !Blank(r[|r| - 1])
  {
    var i := Lead(s);
    var j := Tail(s);
    if j <= i then
      assert s[i..] == s[j..][i - j..];
      []
    else
      s[i..j]
  }

  /** `s` neither starts nor ends with a blank. */
  predicate Trimmed(s: string)
  {
    s != [] ==> !Blank(s[0]) && !Blank(s[|s| - 1])
  }

  /** Trimming leaves a trimmed string as it is. */
  lemma {:induction false} TrimKeeps(s: string)
    requires Trimmed(s)
    ensures Trim(s) == s
  {
    var r := Trim(s);
    if s != [] {
      assert Lead(s) == 0;
      assert r == s[..|s|] == s;
    }
  }

  /** Trimming twice trims no more than trimming once. */
  lemma {:induction false} TrimIdempotent(s: string)
    ensures Trim(Trim(s)) == Trim(s)
  {
    TrimKeeps(Trim(s));
  }

  /** `indexOf('=')`: the first `=` of the line, or -1. */
  function FirstEquals(line: string): (i: int)
    ensures -1 <= i < |line|
    ensures i == -1 <==> '=' !in line
    ensures i >= 0 ==> line[i] == '=' && '=' !in line[..i]
  {
    if line == [] then -1
    else if line[0] == '=' then 0
    else
      var i := FirstEquals(line[1..]);
      if i == -1 then -1
      else
        assert line[..i + 1] == [line[0]] + line[1..][..i];
        i + 1
  }

  /** What one line of the file contributes: nothing for an empty line, a
      comment, a line whose first `=` is missing or opens the line, or a
      line whose trimmed key is empty; otherwise the trimmed text before the
      first `=` and the trimmed text after it. */
  function ParseLine(line: string): (r: Option<(string, string)>)
    ensures (line == [] || line[0] == ';' || FirstEquals(line) <= 0) ==> r.None?
    ensures r.Some? <==> line != [] && line[0] != ';' && FirstEquals(line) > 0 && Trim(line[..FirstEquals(line)]) != []
    ensures r.Some? ==> r.value.0 == Trim(line[..FirstEquals(line)]) && r.value.1 == Trim(line[FirstEquals(line) + 1..])
  {
    if line == [] || line[0] == ';' then None
    else
      var igual := FirstEquals(line);
      if igual <= 0 then None
      else
        var chave := Trim(line[..igual]);
        if chave == [] then None
        else Some((chave, Trim(line[igual + 1..])))
  }

  /** What each line contributes, in file order. */
  function ParseAll(lines: seq<string>): (pairs: seq<Option<(string, string)>>)
    ensures |pairs| == |lines| && forall i :: 0 <= i < |lines| ==> pairs[i] == ParseLine(lines[i])
  {
    seq(|lines|, i requires 0 <= i < |lines| => ParseLine(lines[i]))
  }

  /** The contribution `p` binds `key`. */
  predicate Binds(p: Option<(string, string)>, key: string)
  {
    p.Some? && p.value.0 == key
  }

  /** The value the last contribution that binds `key` gives it: the
      reference reading of "a later line overrides an earlier one". */
  function LastBinding(pairs: seq<Option<(string, string)>>, key: string): Option<string>
  {
    if pairs == [] then None
    else if Binds(pairs[|pairs| - 1], key) then Some(pairs[|pairs| - 1].value.1)
    else LastBinding(pairs[..|pairs| - 1], key)
  }

  /** `key` has a value exactly when some line binds it. */
  lemma {:induction false} LastBindingDefined(pairs: seq<Option<(string, string)>>, key: string)
    ensures LastBinding(pairs, key).Some? <==> exists i :: 0 <= i < |pairs| && Binds(pairs[i], key)
  {
    if pairs != [] {
      var n := |pairs| - 1;
      if !Binds(pairs[n], key) {
        LastBindingDefined(pairs[..n], key);
        if i :| 0 <= i < |pairs| && Binds(pairs[i], key) {
          assert pairs[..n][i] == pairs[i];
        }
      }
    }
  }

  /** The value `key` has is the one some line gives it, and no later line
      binds `key` again. */
  lemma {:induction false} LastBindingIsLast(pairs: seq<Option<(string, string)>>, key: string)
    requires LastBinding(pairs, key).Some?
    ensures exists i :: && 0 <= i < |pairs|
                        && pairs[i] == Some((key, LastBinding(pairs, key).value))
                        && forall j :: i < j < |pairs| ==> !Binds(pairs[j], key)
  {
    var n := |pairs| - 1;
    var v := LastBinding(pairs, key).value;
    if Binds(pairs[n], key) {
      assert pairs[n] == Some((key, v));
    } else {
      var init := pairs[..n];
      LastBindingIsLast(init, key);
      var i :| && 0 <= i < n
               && init[i] == Some((key, v))
               && forall j :: i < j < n ==> !Binds(init[j], key);
      assert init[i] == pairs[i];
      assert forall j :: i < j < n ==> init[j] == pairs[j];
    }
  }

  /** `m` holds, for every key, the value the last line binding it gives. */
  ghost predicate Represents(m: map<string, string>, pairs: seq<Option<(string, string)>>)
  {
    && (forall key :: key in m <==> LastBinding(pairs, key).Some?)
    && (forall key :: key in m ==> m[key] == LastBinding(pairs, key).value)
  }

  /** Putting the pair of one more line keeps the map in step. */
  lemma {:induction false} PutStep(m: map<string, string>, pairs: seq<Option<(string, string)>>, i: int)
    requires 0 <= i < |pairs| && Represents(m, pairs[..i])
    ensures Represents(if pairs[i].Some? then m[pairs[i].value.0 := pairs[i].value.1] else m, pairs[..i + 1])
  {
    assert pairs[..i + 1][..i] == pairs[..i];
  }

  /** The loop over the kept lines of `getPropriedades` (and of the older
      constructor): each line that yields a pair is `put` into the map. */
  method Parse(lines: seq<string>) returns (m: map<string, string>)
    ensures forall key :: key in m <==> LastBinding(ParseAll(lines), key).Some?
    ensures forall key :: key in m ==> m[key] == LastBinding(ParseAll(lines), key).value
  {
    ghost var pairs := ParseAll(lines);
    m := map[];
    var i := 0;
    while i < |lines|
      invariant 0 <= i <= |lines| && Represents(m, pairs[..i])
    {
      var pair := ParseLine(lines[i]);
      assert pair == pairs[i];
      PutStep(m, pairs, i);
      if pair.Some? {
        m := m[pair.value.0 := pair.value.1];
      }
      i := i + 1;
    }
    assert pairs[..i] == pairs;
  }

  /** The constructor of the `config` module's `Configuracao`: a missing
      file, an unreadable size, a file over `MAX_SIZE` bytes or a failed
      read leave the empty map; otherwise the parsed lines. */
  method Load(f: File) returns (m: map<string, string>)
    ensures (f.Missing? || f.SizeFails? || (f.Present? && (f.size > MAX_SIZE || f.lines.None?))) ==> m == map[]
    ensures f.Present? && f.size <= MAX_SIZE && f.lines.Some? ==>
      forall key :: (key in m <==> LastBinding(ParseAll(f.lines.value), key).Some?)
    ensures f.Present? && f.size <= MAX_SIZE && f.lines.Some? ==>
      forall key :: key in m ==> m[key] == LastBinding(ParseAll(f.lines.value), key).value
  {
    if f.Missing? || f.SizeFails? || f.size > MAX_SIZE || f.lines.None? {
      m := map[];
    } else {
      m := Parse(f.lines.value);
    }
  }

  /** `valor(propriedade)` and `getValor(chave)`: the value, or `null`
      (`None`) for a key the file did not define. */
  function Valor(m: map<string, string>, key: string): (r: Option<string>)
    ensures r.Some? <==> key in m
    ensures r.Some? ==> r.value == m[key]
  {
    if key in m then Some(m[key]) else None
  }

  /** `chaves()`: the keys the file defined, exactly those `valor`
      answers for. */
  function Chaves(m: map<string, string>): (r: set<string>)
    ensures forall key :: key in r <==> Valor(m, key).Some?
  {
    m.Keys
  }

  /** The constructor of the older `Configuracao`, as written: on a missing
      file, an unreadable size, a file over `MAX_SIZE` bytes or a failed
      read it returns before the map is created, leaving it `null`
      (`None`). */
  method LoadAsWritten(f: File) returns (m: Option<map<string, string>>)
    ensures m.None? <==> (f.Missing? || f.SizeFails? || (f.Present? && (f.size > MAX_SIZE || f.lines.None?)))
    ensures m.Some? ==> forall key :: (key in m.value <==> LastBinding(ParseAll(f.lines.value), key).Some?)
    ensures m.Some? ==> forall key :: key in m.value ==> m.value[key] == LastBinding(ParseAll(f.lines.value), key).value
  {
    if f.Missing? || f.SizeFails? || f.size > MAX_SIZE || f.lines.None? {
      m := None;
    } else {
      var parsed := Parse(f.lines.value);
      m := Some(parsed);
    }
  }

  /** `getValor(chave)` of the older class, as written: on a `null` map the
      lookup throws. */
  function GetValorAsWritten(m: Option<map<string, string>>, key: string): (r: Result<Option<string>>)
    ensures r.Failure? <==> m.None?
    ensures r.Success? ==> r.value == Valor(m.value, key)
  {
    match m
    case None => Failure("NullPointerException")
    case Some(p) => Success(Valor(p, key))
  }

  /** The older class with the default configuration its documentation
      promises: a file that cannot be used gives the empty map, as the
      newer class does. */
  method LoadCorrected(f: File) returns (m: map<string, string>)
    ensures (f.Missing? || f.SizeFails? || (f.Present? && (f.size > MAX_SIZE || f.lines.None?))) ==> m == map[]
    ensures f.Present? && f.size <= MAX_SIZE && f.lines.Some? ==>
      forall key :: (key in m <==> LastBinding(ParseAll(f.lines.value), key).Some?)
    ensures f.Present? && f.size <= MAX_SIZE && f.lines.Some? ==>
      forall key :: key in m ==> m[key] == LastBinding(ParseAll(f.lines.value), key).value
  {
    var loaded := LoadAsWritten(f);
    m := if loaded.Some? then loaded.value else map[];
  }

  /** As written, asking the older class for any key after naming a missing
      file throws, where the documentation promises no properties. */
  method MissingFileThrows(key: string) returns (r: Result<Option<string>>)
    ensures r.Failure?
  {
    var m := LoadAsWritten(Missing);
    r := GetValorAsWritten(m, key);
  }

  /** Corrected, the older class answers every lookup as the newer one
      does, for every file. */
  method CorrectedAgrees(f: File, key: string) returns (older: Option<string>, newer: Option<string>)
    ensures older == newer
    ensures older.Some? <==> f.Present? && f.size <= MAX_SIZE && f.lines.Some? && LastBinding(ParseAll(f.lines.value), key).Some?
  {
    var a := LoadCorrected(f);
    var b := Load(f);
    older := Valor(a, key);
    newer := Valor(b, key);
  }

  /** A line written as `key=value`, with a key that is trimmed, holds no
      `=` and does not start a comment, and a trimmed value (which may hold
      further `=` or be empty), parses back to that pair. */
  lemma {:induction false} PairRoundTrip(key: string, value: string)
    requires key != [] && key[0] != ';' && '=' !in key && Trimmed(key) && Trimmed(value)
    ensures ParseLine(key + "=" + value) == Some((key, value))
  {
    var line := key + "=" + value;
    var i := FirstEquals(line);
    assert line[|key|] == '=';
    assert line[..|key|] == key;
    assert line[..i] == key;
    assert line[i + 1..] == value;
    TrimKeeps(key);
    TrimKeeps(value);
  }

}
