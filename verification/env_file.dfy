/** The line editor that rewrites the settings file (connection.py `_prepare_env`). */
module EnvFile {
  import opened Text
  import opened Ordered

  // ----- lines -----

  function Split(t: string): (ls: seq<string>)
    ensures ls != [] && forall i :: 0 <= i < |ls| ==> '\n' !in ls[i]
  {
    if t == [] then [[]]
    else
      var rest := Split(t[1..]);
      if t[0] == '\n' then [[]] + rest else [[t[0]] + rest[0]] + rest[1..]
  }

  function Join(ls: seq<string>): string {
    if ls == [] then [] else if |ls| == 1 then ls[0] else ls[0] + "\n" + Join(ls[1..])
  }

  function StripCr(l: string): (r: string)
    ensures r <= l && (r != [] ==> r[|r| - 1] != '\r')
  {
    if l != [] && l[|l| - 1] == '\r' then StripCr(l[..|l| - 1]) else l
  }

  /** The lines of the file, trailing carriage returns removed; none if there is no file. */
  function LinesOf(text: Option<string>): seq<string> {
    if text.None? then []
    else
      var ls := Map(Split(text.value), StripCr);
      if ls[|ls| - 1] == "" then ls[..|ls| - 1] else ls
  }

  function TextOf(ls: seq<string>): string {
    Join(ls) + "\n"
  }

  /** A line as the editor holds it. */
  predicate Clean(l: string) {
    '\n' !in l && (l != [] ==> l[|l| - 1] != '\r')
  }

  predicate AllClean(ls: seq<string>) {
    forall i :: 0 <= i < |ls| ==> Clean(ls[i])
  }

  lemma {:induction false} SplitHead(l: string, rest: string)
    requires '\n' !in l
    ensures Split(l + "\n" + rest) == [l] + Split(rest)
  {
    var t := l + "\n" + rest;
    if l == [] {
      assert t[0] == '\n' && t[1..] == rest;
    } else {
      assert t[1..] == l[1..] + "\n" + rest;
      SplitHead(l[1..], rest);
      assert [t[0]] + l[1..] == l;
    }
  }

  lemma {:induction false} SplitOne(l: string)
    requires '\n' !in l
    ensures Split(l) == [l]
  {
    if l != [] {
      SplitOne(l[1..]);
      assert [l[0]] + l[1..] == l;
    }
  }

  lemma {:induction false} SplitText(ls: seq<string>)
    requires ls != [] && AllClean(ls)
    ensures Split(TextOf(ls)) == ls + [""]
  {
    hide Split;
    assert Clean(ls[0]);
    SplitOne("");
    if |ls| == 1 {
      assert TextOf(ls) == ls[0] + "\n" + "";
      SplitHead(ls[0], "");
      assert ls == [ls[0]];
    } else {
      assert AllClean(ls[1..]);
      SplitText(ls[1..]);
      assert TextOf(ls) == ls[0] + "\n" + TextOf(ls[1..]);
      SplitHead(ls[0], TextOf(ls[1..]));
      assert ls == [ls[0]] + ls[1..];
    }
  }

  lemma StripClean(l: string)
    ensures Clean(l) ==> StripCr(l) == l
    ensures '\n' !in l ==> Clean(StripCr(l))
  {
    assert forall c :: c in StripCr(l) ==> c in l;
  }

  /** Lines written out are read back as they were; a file of no lines gains an empty one. */
  lemma LinesBack(ls: seq<string>)
    requires AllClean(ls)
    ensures LinesOf(Some(TextOf(ls))) == if ls == [] then [""] else ls
  {
    hide StripCr, Clean;
    var now := if ls == [] then [""] else ls;
    assert AllClean(now) && TextOf(now) == TextOf(ls) by { EmptyClean(); }
    SplitText(now);
    forall i | 0 <= i < |now + [""]| ensures StripCr((now + [""])[i]) == (now + [""])[i] {
      assert Clean((now + [""])[i]) by { EmptyClean(); }
      StripClean((now + [""])[i]);
    }
    assert Map(now + [""], StripCr) == now + [""];
  }

  lemma EmptyClean()
    ensures Clean("")
  {
  }

  lemma LinesClean(text: Option<string>)
    ensures AllClean(LinesOf(text))
  {
    hide StripCr, Clean, Split;
    if text.Some? {
      var ls := Split(text.value);
      forall i | 0 <= i < |ls| ensures Clean(StripCr(ls[i])) { StripClean(ls[i]); }
    }
  }

  // ----- definitions -----

  predicate IsNameStart(c: char) {
    'A' <= c <= 'Z' || 'a' <= c <= 'z' || c == '_'
  }

  predicate IsNameChar(c: char) {
    IsNameStart(c) || '0' <= c <= '9'
  }

  predicate IsName(k: string) {
    k != [] && IsNameStart(k[0]) && forall i :: 0 <= i < |k| ==> IsNameChar(k[i])
  }

  function NameLength(l: string): (n: nat)
    ensures n <= |l| && forall i :: 0 <= i < n ==> IsNameChar(l[i])
    ensures n < |l| ==> !IsNameChar(l[n])
  {
    if l == [] || !IsNameChar(l[0]) then 0 else 1 + NameLength(l[1..])
  }

  /** `NAME =` at the start of the text. */
  function PlainKey(l: string): Option<string> {
    var n := NameLength(l);
    var rest := TrimLeft(l[n..]);
    if n > 0 && IsNameStart(l[0]) && rest != [] && rest[0] == '=' then Some(l[..n]) else None
  }

  /** The name a line defines: an optional `export`, the name, an equals sign. A line such as
      `export = x` defines the name `export`. */
  function LineKey(line: string): Option<string> {
    var l := TrimLeft(line);
    var exported :=
      if |l| > 6 && l[..6] == "export" && IsSpace(l[6]) then PlainKey(TrimLeft(l[6..])) else None;
    if exported.Some? then exported else PlainKey(l)
  }

  function Define(k: string, v: string): string {
    k + "='" + v + "'"
  }

  predicate Admissible(v: string) {
    forall i :: 0 <= i < |v| ==> v[i] != '\'' && v[i] != '\\' && v[i] != '\n' && v[i] != '\r'
  }

  /** Values as the settings form delivers them. */
  ghost predicate ValuesOk(values: Dict<string, string>) {
    values.Valid() && forall k :: k in values.at ==> IsName(k) && Admissible(values.at[k])
  }

  lemma {:induction false} NameThenEquals(k: string, rest: string)
    requires forall i :: 0 <= i < |k| ==> IsNameChar(k[i])
    requires rest != [] && rest[0] == '='
    ensures NameLength(k + rest) == |k|
  {
    if k == [] {
      assert k + rest == rest;
    } else {
      assert (k + rest)[1..] == k[1..] + rest;
      NameThenEquals(k[1..], rest);
    }
  }

  lemma NameIsNotSpace(c: char)
    requires IsNameChar(c)
    ensures !IsSpace(c)
  {
  }

  /** A name followed by an equals sign is recognised as that name. */
  lemma PlainDefinition(k: string, rest: string)
    requires IsName(k) && rest != [] && rest[0] == '='
    ensures PlainKey(k + rest) == Some(k)
  {
    hide IsSpace, IsNameChar, IsNameStart;
    var line := k + rest;
    NameThenEquals(k, rest);
    EqualsIsNotSpace();
    assert line[..|k|] == k && line[|k|..] == rest && TrimLeft(rest) == rest;
  }

  /** It does not read as an exported definition of something else, not even when the name is or
      starts with `export`. */
  lemma NotExported(k: string, rest: string)
    requires IsName(k) && rest != [] && rest[0] == '='
    ensures var line := k + rest; |line| > 6 && line[..6] == "export" ==> !IsSpace(line[6])
  {
    hide IsSpace, IsNameChar, IsNameStart;
    var line := k + rest;
    EqualsIsNotSpace();
    if |k| > 6 {
      NameIsNotSpace(k[6]);
      assert line[6] == k[6];
    } else if |k| == 6 {
      assert line[6] == '=';
    } else {
      assert |line| > 6 ==> line[..6][|k|] == '=' && "export"[|k|] != '=';
    }
  }

  lemma DefineKey(k: string, v: string)
    requires IsName(k)
    ensures LineKey(Define(k, v)) == Some(k)
  {
    hide IsSpace, IsNameChar, IsNameStart, PlainKey;
    var rest := "='" + v + "'";
    assert Define(k, v) == k + rest && (k + rest)[0] == k[0];
    NameIsNotSpace(k[0]);
    assert TrimLeft(k + rest) == k + rest;
    PlainDefinition(k, rest);
    NotExported(k, rest);
  }

  lemma EqualsIsNotSpace()
    ensures !IsSpace('=')
  {
  }

  lemma DefineClean(k: string, v: string)
    requires IsName(k) && Admissible(v)
    ensures Clean(Define(k, v))
  {
    var d := Define(k, v);
    assert d[|d| - 1] == '\'';
    assert forall i :: 0 <= i < |k| ==> k[i] != '\n';
  }

  // ----- the edit -----

  /** Some line defines `k`. */
  predicate Defined(ls: seq<string>, k: string) {
    exists i :: 0 <= i < |ls| && LineKey(ls[i]) == Some(k)
  }

  predicate IsOurs(values: Dict<string, string>, l: string) {
    LineKey(l).Some? && LineKey(l).value in values.at
  }

  function NotOurs(values: Dict<string, string>): string -> bool {
    (l: string) => !IsOurs(values, l)
  }

  /** The first definition of a written key is replaced in place, later ones are dropped. */
  function Edited(ls: seq<string>, values: Dict<string, string>): seq<string> {
    if ls == [] then []
    else
      var n := |ls| - 1;
      var before, l := ls[..n], ls[n];
      Edited(before, values) +
      if !IsOurs(values, l) then [l]
      else if Defined(before, LineKey(l).value) then []
      else [Define(LineKey(l).value, values.at[LineKey(l).value])]
  }

  function NotDefined(ls: seq<string>): string -> bool {
    (k: string) => !Defined(ls, k)
  }

  function DefineFrom(values: Dict<string, string>): string -> string {
    (k: string) => if k in values.at then Define(k, values.at[k]) else ""
  }

  /** The written keys no line defines, each on a line of its own, in the order given. */
  function Missing(ls: seq<string>, values: Dict<string, string>): seq<string> {
    Select(values.keys, NotDefined(ls), DefineFrom(values))
  }

  function NewLines(ls: seq<string>, values: Dict<string, string>): seq<string> {
    Edited(ls, values) + Missing(ls, values)
  }

  function Prepare(text: Option<string>, values: Dict<string, string>): string {
    TextOf(NewLines(LinesOf(text), values))
  }

  /** The loop over the file's lines. */
  method EditLines(lines: seq<string>, values: Dict<string, string>) returns (out: seq<string>, seen: set<string>)
    ensures out == Edited(lines, values)
    ensures forall k :: k in values.at ==> (k in seen <==> Defined(lines, k))
  {
    hide LineKey, Define, Defined;
    seen, out := {}, [];
    NothingDefined();
    for i := 0 to |lines|
      invariant out == Edited(lines[..i], values)
      invariant forall k :: k in values.at ==> (k in seen <==> Defined(lines[..i], k))
    {
      assert lines[..i + 1][..i] == lines[..i];
      forall k ensures Defined(lines[..i + 1], k) <==> Defined(lines[..i], k) || LineKey(lines[i]) == Some(k) {
        DefinedExtend(lines[..i + 1], k);
      }
      var m := LineKey(lines[i]);
      if m.Some? && m.value in values.at {
        if m.value in seen { continue; }
        out := out + [Define(m.value, values.at[m.value])];
        seen := seen + {m.value};
      } else {
        out := out + [lines[i]];
      }
    }
    assert lines[..|lines|] == lines;
  }

  lemma NothingDefined()
    ensures forall k :: !Defined([], k)
  {
  }

  method PrepareEnv(text: Option<string>, values: Dict<string, string>) returns (r: string)
    requires values.Valid()
    ensures r == Prepare(text, values)
  {
    hide LineKey, Define, LinesOf, TextOf, Defined, Edited, Select;
    var lines := LinesOf(text);
    var out, seen := EditLines(lines, values);
    ghost var edited := out;
    assert Select([], NotDefined(lines), DefineFrom(values)) == [] by { SelectNothing(NotDefined(lines), DefineFrom(values)); }
    for j := 0 to |values.keys|
      invariant out == edited + Select(values.keys[..j], NotDefined(lines), DefineFrom(values))
    {
      SelectExtend(values.keys, j, NotDefined(lines), DefineFrom(values));
      if values.keys[j] !in seen {
        out := out + [Define(values.keys[j], values.at[values.keys[j]])];
      }
    }
    assert values.keys[..|values.keys|] == values.keys;
    r := TextOf(out);
  }

  lemma SelectNothing(p: string -> bool, f: string -> string)
    ensures Select([], p, f) == []
  {
  }

  lemma DefinedExtend(ls: seq<string>, k: string)
    requires ls != []
    ensures Defined(ls, k) <==> Defined(ls[..|ls| - 1], k) || LineKey(ls[|ls| - 1]) == Some(k)
  {
    hide LineKey;
    var init := ls[..|ls| - 1];
    if i :| 0 <= i < |ls| && LineKey(ls[i]) == Some(k) {
      assert i < |init| ==> init[i] == ls[i];
    }
    if i :| 0 <= i < |init| && LineKey(init[i]) == Some(k) {
      assert ls[i] == init[i];
    }
  }

  // ----- what a reader makes of the lines -----

  /** The value of `k` for a reader that takes definitions line by line, the last one winning. */
  function Reading(ls: seq<string>, k: string, read: string -> string): Option<string> {
    if ls == [] then None
    else if LineKey(ls[|ls| - 1]) == Some(k) then Some(read(ls[|ls| - 1]))
    else Reading(ls[..|ls| - 1], k, read)
  }

  /** The reader takes what stands between single quotes literally. */
  ghost predicate ReadsQuoted(read: string -> string) {
    forall k, v :: IsName(k) && Admissible(v) ==> read(Define(k, v)) == v
  }

  /** Every line that defines a written key is its new definition, and there is exactly one. */
  ghost predicate OneEach(ls: seq<string>, values: Dict<string, string>) {
    && (forall i :: 0 <= i < |ls| && IsOurs(values, ls[i]) ==>
          ls[i] == Define(LineKey(ls[i]).value, values.at[LineKey(ls[i]).value]))
    && (forall i, j :: 0 <= i < j < |ls| && IsOurs(values, ls[i]) && IsOurs(values, ls[j]) ==> LineKey(ls[i]) != LineKey(ls[j]))
  }

  lemma {:induction false} EditedOneEach(ls: seq<string>, values: Dict<string, string>)
    requires ValuesOk(values)
    ensures OneEach(Edited(ls, values), values)
    ensures forall k :: k in values.at ==> (Defined(Edited(ls, values), k) <==> Defined(ls, k))
  {
    hide LineKey, Define, IsName, Admissible;
    if ls != [] {
      var n := |ls| - 1;
      var e := Edited(ls[..n], values);
      EditedOneEach(ls[..n], values);
      forall k ensures Defined(ls, k) <==> Defined(ls[..n], k) || LineKey(ls[n]) == Some(k) { DefinedExtend(ls, k); }
      var more := Edited(ls, values)[|e|..];
      assert Edited(ls, values) == e + more;
      if more != [] {
        var d := more[0];
        assert more == [d];
        if IsOurs(values, ls[n]) { DefineKey(LineKey(ls[n]).value, values.at[LineKey(ls[n]).value]); }
        OneMore(e, d, values);
      }
    }
  }

  lemma OneMore(ls: seq<string>, d: string, values: Dict<string, string>)
    requires OneEach(ls, values)
    requires IsOurs(values, d) ==> !Defined(ls, LineKey(d).value) && d == Define(LineKey(d).value, values.at[LineKey(d).value])
    ensures OneEach(ls + [d], values)
    ensures forall k :: Defined(ls + [d], k) <==> Defined(ls, k) || LineKey(d) == Some(k)
  {
    hide LineKey, Define;
    assert (ls + [d])[..|ls|] == ls;
    forall k ensures Defined(ls + [d], k) <==> Defined(ls, k) || LineKey(d) == Some(k) { DefinedExtend(ls + [d], k); }
    forall i | 0 <= i < |ls| && IsOurs(values, ls[i]) && IsOurs(values, d)
      ensures LineKey(ls[i]) != LineKey(d)
    {
      assert Defined(ls, LineKey(ls[i]).value);
    }
  }

  /** The whole edit leaves exactly one definition of every written key. */
  lemma NewLinesOneEach(ls: seq<string>, values: Dict<string, string>)
    requires ValuesOk(values)
    ensures OneEach(NewLines(ls, values), values)
    ensures forall k :: k in values.at ==> Defined(NewLines(ls, values), k)
  {
    hide LineKey, Define, IsName, Admissible;
    EditedOneEach(ls, values);
    AppendEach(Edited(ls, values), ls, values, |values.keys|);
    assert values.keys[..|values.keys|] == values.keys;
  }

  lemma {:induction false} AppendEach(e: seq<string>, ls: seq<string>, values: Dict<string, string>, n: nat)
    requires ValuesOk(values) && n <= |values.keys|
    requires OneEach(e, values) && forall k :: k in values.at ==> (Defined(e, k) <==> Defined(ls, k))
    ensures var r := e + Select(values.keys[..n], NotDefined(ls), DefineFrom(values));
            OneEach(r, values) && forall k :: k in values.at ==> (Defined(r, k) <==> Defined(ls, k) || k in values.keys[..n])
  {
    hide LineKey, Define, IsName, Admissible, Defined, OneEach, Select;
    var more := Select(values.keys[..n], NotDefined(ls), DefineFrom(values));
    if n == 0 {
      SelectNothing(NotDefined(ls), DefineFrom(values));
      assert values.keys[..0] == [] && e + more == e;
    } else {
      var k := values.keys[n - 1];
      AppendEach(e, ls, values, n - 1);
      SelectExtend(values.keys, n - 1, NotDefined(ls), DefineFrom(values));
      var r := e + Select(values.keys[..n - 1], NotDefined(ls), DefineFrom(values));
      assert values.keys[..n] == values.keys[..n - 1] + [k] && k !in values.keys[..n - 1];
      if Defined(ls, k) {
        assert e + more == r;
      } else {
        DefineKey(k, values.at[k]);
        OneMore(r, Define(k, values.at[k]), values);
        assert e + more == r + [Define(k, values.at[k])];
      }
    }
  }

  // ----- the other lines -----

  lemma {:induction false} EditedSurvivors(ls: seq<string>, values: Dict<string, string>)
    requires ValuesOk(values)
    ensures Filter(Edited(ls, values), NotOurs(values)) == Filter(ls, NotOurs(values))
  {
    hide LineKey, Define, IsName, Admissible, Defined;
    if ls != [] {
      var n := |ls| - 1;
      var e, l := Edited(ls[..n], values), ls[n];
      EditedSurvivors(ls[..n], values);
      if !IsOurs(values, l) {
        FilterAppend(e, l, NotOurs(values));
      } else {
        var d := Define(LineKey(l).value, values.at[LineKey(l).value]);
        DefineKey(LineKey(l).value, values.at[LineKey(l).value]);
        assert IsOurs(values, d);
        FilterAppend(e, d, NotOurs(values));
        assert Edited(ls, values) == e || Edited(ls, values) == e + [d];
      }
    }
  }

  lemma MissingAreOurs(ls: seq<string>, values: Dict<string, string>, l: string)
    requires ValuesOk(values) && l in Missing(ls, values)
    ensures IsOurs(values, l) && Clean(l)
  {
    hide LineKey, Define, IsName, Admissible, Defined, Clean;
    var ks := Filter(values.keys, NotDefined(ls));
    FilterExact(values.keys, NotDefined(ls));
    var i :| 0 <= i < |ks| && l == DefineFrom(values)(ks[i]);
    assert ks[i] in values.keys;
    DefineKey(ks[i], values.at[ks[i]]);
    DefineClean(ks[i], values.at[ks[i]]);
  }

  /** Every line that defines no written key survives, in order, and nothing else does. */
  lemma Survivors(ls: seq<string>, values: Dict<string, string>)
    requires ValuesOk(values)
    ensures Filter(NewLines(ls, values), NotOurs(values)) == Filter(ls, NotOurs(values))
  {
    hide LineKey, IsName, Admissible, Edited, Missing, Filter;
    EditedSurvivors(ls, values);
    FilterConcat(Edited(ls, values), Missing(ls, values), NotOurs(values));
    forall l | l in Missing(ls, values) ensures !NotOurs(values)(l) { MissingAreOurs(ls, values, l); }
    FilterNone(Missing(ls, values), NotOurs(values));
  }

  lemma {:induction false} EditedClean(ls: seq<string>, values: Dict<string, string>)
    requires ValuesOk(values) && AllClean(ls)
    ensures AllClean(Edited(ls, values))
  {
    hide LineKey, Define, IsName, Admissible, Defined, Clean;
    if ls != [] {
      var n := |ls| - 1;
      EditedClean(ls[..n], values);
      if IsOurs(values, ls[n]) { DefineClean(LineKey(ls[n]).value, values.at[LineKey(ls[n]).value]); }
    }
  }

  lemma NewLinesClean(ls: seq<string>, values: Dict<string, string>)
    requires ValuesOk(values) && AllClean(ls)
    ensures AllClean(NewLines(ls, values))
  {
    hide Clean, Missing, Edited, IsName, Admissible;
    EditedClean(ls, values);
    forall l | l in Missing(ls, values) ensures Clean(l) { MissingAreOurs(ls, values, l); }
  }

  // ----- reading -----

  lemma {:induction false} ReadingOthers(ls: seq<string>, values: Dict<string, string>, k: string, read: string -> string)
    requires k !in values.at
    ensures Reading(ls, k, read) == Reading(Filter(ls, NotOurs(values)), k, read)
  {
    hide LineKey;
    if ls != [] {
      var n := |ls| - 1;
      ReadingOthers(ls[..n], values, k, read);
      var f := Filter(ls[..n], NotOurs(values));
      assert !IsOurs(values, ls[n]) ==> (f + [ls[n]])[..|f|] == f;
    }
  }

  lemma {:induction false} ReadingOurs(ls: seq<string>, values: Dict<string, string>, k: string, read: string -> string)
    requires OneEach(ls, values) && k in values.at && Defined(ls, k)
    ensures Reading(ls, k, read) == Some(read(Define(k, values.at[k])))
  {
    hide LineKey, Define;
    var n := |ls| - 1;
    if LineKey(ls[n]) != Some(k) {
      DefinedExtend(ls, k);
      assert forall i :: 0 <= i < n ==> ls[..n][i] == ls[i];
      ReadingOurs(ls[..n], values, k, read);
    }
  }

  // ----- writing again -----

  lemma OneEachInit(ls: seq<string>, values: Dict<string, string>)
    requires OneEach(ls, values) && ls != []
    ensures var n := |ls| - 1;
            && OneEach(ls[..n], values)
            && (IsOurs(values, ls[n]) ==> !Defined(ls[..n], LineKey(ls[n]).value))
            && (IsOurs(values, ls[n]) ==> ls[n] == Define(LineKey(ls[n]).value, values.at[LineKey(ls[n]).value]))
  {
    hide LineKey, Define;
    var n := |ls| - 1;
    assert forall i :: 0 <= i < n ==> ls[..n][i] == ls[i];
    forall i | 0 <= i < n && IsOurs(values, ls[n]) ensures LineKey(ls[..n][i]) != LineKey(ls[n]) {
      var l := ls[i];
      assert IsOurs(values, l) <==> LineKey(l).Some? && LineKey(l).value in values.at;
    }
  }

  lemma {:induction false} EditedFixed(ls: seq<string>, values: Dict<string, string>)
    requires OneEach(ls, values)
    ensures Edited(ls, values) == ls
  {
    hide LineKey, Define, OneEach, Defined;
    if ls != [] {
      OneEachInit(ls, values);
      EditedFixed(ls[..|ls| - 1], values);
    }
  }

  lemma NewLinesFixed(ls: seq<string>, values: Dict<string, string>)
    requires values.Valid() && OneEach(ls, values) && forall k :: k in values.at ==> Defined(ls, k)
    ensures NewLines(ls, values) == ls
  {
    hide LineKey, Define, Defined, OneEach;
    EditedFixed(ls, values);
    FilterNone(values.keys, NotDefined(ls));
  }

  // ----- the laws of the editor -----

  /** The lines found in the new file, one empty line if the edit produced none. */
  lemma WrittenLines(text: Option<string>, values: Dict<string, string>)
    requires ValuesOk(values)
    ensures var out := NewLines(LinesOf(text), values);
            LinesOf(Some(Prepare(text, values))) == if out == [] then [""] else out
    ensures NewLines(LinesOf(text), values) == [] <==> LinesOf(text) == [] && values.keys == []
  {
    hide LinesOf, NewLines, AllClean, TextOf, IsName, Admissible;
    LinesClean(text);
    NewLinesClean(LinesOf(text), values);
    LinesBack(NewLines(LinesOf(text), values));
    NoLinesExactly(LinesOf(text), values);
  }

  lemma NoLinesExactly(ls: seq<string>, values: Dict<string, string>)
    requires ValuesOk(values)
    ensures NewLines(ls, values) == [] <==> ls == [] && values.keys == []
  {
    hide LineKey, Define, IsName, Admissible;
    if values.keys != [] {
      NewLinesOneEach(ls, values);
      assert values.keys[0] in values.at;
    }
    assert values.keys == [] ==> forall k :: k !in values.at;
  }

  ghost predicate DefinedOnce(ls: seq<string>, k: string, l: string) {
    exists i :: 0 <= i < |ls| && LineKey(ls[i]) == Some(k) && ls[i] == l && forall j :: 0 <= j < |ls| && LineKey(ls[j]) == Some(k) ==> j == i
  }

  lemma OnceFromOneEach(ls: seq<string>, values: Dict<string, string>, k: string)
    requires OneEach(ls, values) && k in values.at && Defined(ls, k)
    ensures DefinedOnce(ls, k, Define(k, values.at[k]))
  {
    hide LineKey, Define;
    var i :| 0 <= i < |ls| && LineKey(ls[i]) == Some(k);
    forall j | 0 <= j < |ls| && LineKey(ls[j]) == Some(k) ensures j == i {
      assert IsOurs(values, ls[i]) && IsOurs(values, ls[j]);
    }
  }

  lemma EmptyDefinesNothing()
    ensures LineKey("") == None
  {
  }

  /** For any file text and admissible values: each written key has exactly one definition, every
      other line survives in order, and a reader finds the written values and, for every other
      key, what it found before. */
  lemma EditIsLawful(text: Option<string>, values: Dict<string, string>, read: string -> string)
    requires ValuesOk(values) && ReadsQuoted(read)
    ensures var before, after := LinesOf(text), LinesOf(Some(Prepare(text, values)));
            && (forall k :: k in values.at ==> DefinedOnce(after, k, Define(k, values.at[k])))
            && (Filter(after, NotOurs(values)) == if before == [] && values.keys == [] then [""] else Filter(before, NotOurs(values)))
            && (forall k :: Reading(after, k, read) == if k in values.at then Some(values.at[k]) else Reading(before, k, read))
  {
    hide LinesOf, NewLines, Prepare, LineKey, Define, IsName, Admissible, DefinedOnce, OneEach, Defined, Reading, Filter, IsOurs;
    var ls, after := LinesOf(text), LinesOf(Some(Prepare(text, values)));
    var out := NewLines(ls, values);
    WrittenLines(text, values);
    NewLinesOneEach(ls, values);
    Survivors(ls, values);
    if out == [] {
      assert forall k :: k !in values.at;
      BlankFile(values);
      forall k ensures Reading(after, k, read) == Reading(ls, k, read) { BlankReading(k, read); }
    } else {
      forall k ensures k in values.at ==> DefinedOnce(after, k, Define(k, values.at[k])) {
        if k in values.at { OnceFromOneEach(out, values, k); }
      }
      forall k ensures Reading(after, k, read) == if k in values.at then Some(values.at[k]) else Reading(ls, k, read) {
        ReadingNew(ls, values, k, read);
      }
    }
  }

  lemma ReadingNew(ls: seq<string>, values: Dict<string, string>, k: string, read: string -> string)
    requires ValuesOk(values) && ReadsQuoted(read)
    ensures Reading(NewLines(ls, values), k, read) == if k in values.at then Some(values.at[k]) else Reading(ls, k, read)
  {
    hide NewLines, LineKey, Define, IsName, Admissible, OneEach, Defined, Reading, Filter;
    var out := NewLines(ls, values);
    if k in values.at {
      NewLinesOneEach(ls, values);
      ReadingOurs(out, values, k, read);
    } else {
      Survivors(ls, values);
      ReadingOthers(out, values, k, read);
      ReadingOthers(ls, values, k, read);
    }
  }

  lemma BlankFile(values: Dict<string, string>)
    ensures Filter([""], NotOurs(values)) == [""]
  {
    hide LineKey;
    EmptyDefinesNothing();
    FilterAppend([], "", NotOurs(values));
  }

  lemma BlankReading(k: string, read: string -> string)
    ensures Reading([""], k, read) == None && Reading([], k, read) == None
  {
    hide LineKey;
    EmptyDefinesNothing();
  }

  /** Writing the same values again changes nothing. */
  lemma WritingTwice(text: Option<string>, values: Dict<string, string>)
    requires ValuesOk(values)
    ensures Prepare(Some(Prepare(text, values)), values) == Prepare(text, values)
  {
    hide LinesOf, NewLines, LineKey, Define, IsName, Admissible, OneEach, Defined, TextOf;
    var ls := LinesOf(text);
    var out := NewLines(ls, values);
    WrittenLines(text, values);
    NewLinesOneEach(ls, values);
    if out == [] {
      assert OneEach([""], values) by { BlankOneEach(values); }
      NewLinesFixed([""], values);
      assert TextOf([]) == TextOf([""]) by { BlankText(); }
    } else {
      NewLinesFixed(out, values);
    }
  }

  lemma BlankOneEach(values: Dict<string, string>)
    ensures OneEach([""], values)
  {
    hide LineKey, Define;
    EmptyDefinesNothing();
  }

  lemma BlankText()
    ensures TextOf([]) == TextOf([""])
  {
  }

  // ----- universal newlines -----

  /** Reading a file as text turns every carriage return into a line end, so no text that was read
      holds one. */
  predicate IsReadText(text: Option<string>) {
    text.Some? ==> '\r' !in text.value
  }

  predicate NoReturns(ls: seq<string>) {
    forall i :: 0 <= i < |ls| ==> '\r' !in ls[i]
  }

  lemma {:induction false} SplitNoReturns(t: string)
    requires '\r' !in t
    ensures NoReturns(Split(t))
  {
    if t != [] {
      SplitNoReturns(t[1..]);
      assert t[0] in t;
    }
  }

  lemma {:induction false} JoinNoReturns(ls: seq<string>)
    requires NoReturns(ls)
    ensures '\r' !in Join(ls)
  {
    if |ls| > 1 { JoinNoReturns(ls[1..]); }
  }

  lemma DefineNoReturns(k: string, v: string)
    requires IsName(k) && Admissible(v)
    ensures '\r' !in Define(k, v)
  {
    assert '\r' !in k && '\r' !in v;
  }

  lemma {:induction false} EditedNoReturns(ls: seq<string>, values: Dict<string, string>)
    requires ValuesOk(values) && NoReturns(ls)
    ensures NoReturns(Edited(ls, values))
  {
    hide LineKey, Define, IsName, Admissible, Defined;
    if ls != [] {
      var n := |ls| - 1;
      EditedNoReturns(ls[..n], values);
      if IsOurs(values, ls[n]) { DefineNoReturns(LineKey(ls[n]).value, values.at[LineKey(ls[n]).value]); }
    }
  }

  lemma MissingNoReturns(ls: seq<string>, values: Dict<string, string>, i: nat)
    requires ValuesOk(values) && i < |Missing(ls, values)|
    ensures '\r' !in Missing(ls, values)[i]
  {
    hide LineKey, Define, IsName, Admissible, Defined;
    var ks := Filter(values.keys, NotDefined(ls));
    FilterExact(values.keys, NotDefined(ls));
    assert ks[i] in values.keys by { assert ks[i] in ks; }
    DefineNoReturns(ks[i], values.at[ks[i]]);
  }

  /** What is written is read back unchanged: it holds no carriage return. */
  lemma WrittenIsReadText(text: Option<string>, values: Dict<string, string>)
    requires ValuesOk(values) && IsReadText(text)
    ensures IsReadText(Some(Prepare(text, values)))
  {
    hide LineKey, Define, IsName, Admissible, Edited, Missing, Split;
    var ls := LinesOf(text);
    if text.Some? { SplitNoReturns(text.value); }
    assert NoReturns(ls);
    EditedNoReturns(ls, values);
    forall i | 0 <= i < |Missing(ls, values)| ensures '\r' !in Missing(ls, values)[i] { MissingNoReturns(ls, values, i); }
    JoinNoReturns(NewLines(ls, values));
  }

  // ----- a reader of quoted values -----

  function ToQuote(s: string): string {
    if s == [] || s[0] == '\'' then [] else [s[0]] + ToQuote(s[1..])
  }

  function AfterQuote(s: string): string {
    if s == [] then [] else if s[0] == '\'' then s[1..] else AfterQuote(s[1..])
  }

  function QuotedValue(line: string): string {
    ToQuote(AfterQuote(line))
  }

  lemma {:induction false} ToQuoteExact(v: string, rest: string)
    requires '\'' !in v && rest != [] && rest[0] == '\''
    ensures ToQuote(v + rest) == v && AfterQuote(v + rest) == rest[1..]
  {
    if v == [] {
      assert v + rest == rest;
    } else {
      assert (v + rest)[1..] == v[1..] + rest;
      ToQuoteExact(v[1..], rest);
    }
  }

  /** Such readers exist. */
  lemma QuotedValueReads()
    ensures ReadsQuoted(QuotedValue)
  {
    forall k, v | IsName(k) && Admissible(v) ensures QuotedValue(Define(k, v)) == v {
      assert '\'' !in k + "=" by { assert forall i :: 0 <= i < |k| ==> k[i] != '\''; }
      assert Define(k, v) == (k + "=") + ("'" + v + "'");
      ToQuoteExact(k + "=", "'" + v + "'");
      assert ("'" + v + "'")[1..] == v + "'";
      ToQuoteExact(v, "'");
    }
  }

  // ----- which lines define what -----

  lemma {:induction false} NameThen(k: string, rest: string)
    requires (forall i :: 0 <= i < |k| ==> IsNameChar(k[i])) && rest != [] && !IsNameChar(rest[0])
    ensures NameLength(k + rest) == |k|
  {
    hide IsNameChar;
    if k == [] {
      assert k + rest == rest;
    } else {
      assert (k + rest)[0] == k[0] && (k + rest)[1..] == k[1..] + rest;
      NameThen(k[1..], rest);
    }
  }

  lemma SpaceIsNoName(c: char)
    ensures IsSpace(c) || c == '=' ==> !IsNameChar(c)
    ensures IsNameStart(c) ==> IsNameChar(c) && !IsSpace(c)
    ensures IsNameChar(c) ==> !IsSpace(c) && c != '='
  {
  }

  /** White space and then an equals sign: neither is part of a name. */
  lemma GapStart(gap: string, rest: string)
    requires AllSpace(gap)
    ensures var t := gap + "=" + rest; t != [] && !IsNameChar(t[0]) && TrimLeft(t) == "=" + rest
  {
    hide IsSpace, IsNameChar, TrimLeft;
    var t := gap + "=" + rest;
    EqualsIsNotSpace();
    assert t == gap + ("=" + rest) && ("=" + rest)[0] == '=';
    TrimLeftPadding(gap, "=" + rest);
    SpaceIsNoName(t[0]);
  }

  /** A name, white space and an equals sign. */
  lemma PlainLine(k: string, gap: string, rest: string)
    requires IsName(k) && AllSpace(gap)
    ensures PlainKey(k + (gap + "=" + rest)) == Some(k)
  {
    hide IsSpace, IsNameChar, IsNameStart, TrimLeft;
    var t := gap + "=" + rest;
    var l := k + t;
    GapStart(gap, rest);
    NameThen(k, t);
    assert l[..|k|] == k && l[|k|..] == t && l[0] == k[0];
    assert ("=" + rest)[0] == '=';
  }

  lemma NameIsTight(k: string, t: string)
    requires IsName(k)
    ensures TrimLeft(k + t) == k + t && (k + t)[0] == k[0]
  {
    hide IsSpace, IsNameStart;
    assert (k + t)[0] == k[0];
    assert IsNameChar(k[0]);
    SpaceIsNoName(k[0]);
  }

  /** `  NAME  = anything` defines NAME, whatever white space stands before and after the name. */
  lemma PlainLineDefines(indent: string, k: string, gap: string, rest: string)
    requires AllSpace(indent) && IsName(k) && AllSpace(gap)
    ensures LineKey(indent + (k + (gap + "=" + rest))) == Some(k)
  {
    hide IsSpace, IsNameChar, IsNameStart, TrimLeft, PlainKey;
    var t := gap + "=" + rest;
    var l := k + t;
    NameIsTight(k, t);
    SpaceIsNoName(k[0]);
    assert !IsSpace(k[0]) by { NameStartsTight(k); }
    TrimLeftPadding(indent, l);
    PlainLine(k, gap, rest);
    GapStart(gap, rest);
    if |l| > 6 && l[..6] == "export" && IsSpace(l[6]) {
      ExportOnly(k, t);
      assert l[6..] == t;
      NoNameHere(rest);
    }
  }

  lemma NameStartsTight(k: string)
    requires IsName(k)
    ensures !IsSpace(k[0])
  {
    hide IsSpace, IsNameStart;
    assert IsNameChar(k[0]);
    SpaceIsNoName(k[0]);
  }

  /** Only the name `export` itself is followed by white space after six letters. */
  lemma ExportOnly(k: string, t: string)
    requires IsName(k) && t != [] && !IsNameChar(t[0])
    requires var l := k + t; |l| > 6 && l[..6] == "export" && IsSpace(l[6])
    ensures |k| == 6
  {
    hide IsSpace, IsNameStart;
    var l := k + t;
    if |k| > 6 {
      assert l[6] == k[6];
      SpaceIsNoName(k[6]);
      assert false;
    }
    if |k| < 6 {
      LettersOfExport(|k|);
      assert false;
    }
  }

  lemma LettersOfExport(i: nat)
    requires i < 6
    ensures IsNameChar("export"[i])
  {
  }

  lemma NoNameHere(rest: string)
    ensures PlainKey("=" + rest) == None
  {
    hide IsSpace;
    assert ("=" + rest)[0] == '=';
    SpaceIsNoName('=');
  }

  /** `  export  NAME  = anything` defines NAME. */
  lemma ExportLineDefines(indent: string, space: string, k: string, gap: string, rest: string)
    requires AllSpace(indent) && AllSpace(space) && space != "" && IsName(k) && AllSpace(gap)
    ensures LineKey(indent + ("export" + (space + (k + (gap + "=" + rest))))) == Some(k)
  {
    hide IsSpace, IsNameChar, IsNameStart, TrimLeft, PlainKey;
    var body := k + (gap + "=" + rest);
    var l := "export" + (space + body);
    EIsNotSpace();
    assert l[0] == 'e' && l[..6] == "export" && l[6] == space[0] && l[6..] == space + body;
    TrimLeftPadding(indent, l);
    NameStartsTight(k);
    assert body[0] == k[0];
    TrimLeftPadding(space, body);
    PlainLine(k, gap, rest);
  }

  lemma EIsNotSpace()
    ensures !IsSpace('e')
  {
  }

  /** A comment, or any line that does not start with a name, defines nothing. */
  lemma OtherLineDefinesNothing(indent: string, l: string)
    requires AllSpace(indent) && (l == "" || (!IsSpace(l[0]) && !IsNameStart(l[0])))
    ensures LineKey(indent + l) == None
  {
    hide IsSpace, IsNameStart, TrimLeft;
    TrimLeftPadding(indent, l);
    if l != "" && |l| > 6 && l[..6] == "export" {
      assert l[0] == l[..6][0] == 'e';
      EStartsName();
      assert false;
    }
  }

  lemma EStartsName()
    ensures IsNameStart('e')
  {
  }

  /** A line without an equals sign defines nothing. */
  lemma NoEqualsNoDefinition(l: string)
    requires '=' !in l
    ensures LineKey(l) == None
  {
    hide IsSpace, IsNameStart, PlainKey;
    var t := TrimLeft(l);
    assert forall c :: c in t ==> c in l;
    NoEqualsNoKey(t);
    if |t| > 6 {
      var u := TrimLeft(t[6..]);
      assert forall c :: c in u ==> c in t;
      NoEqualsNoKey(u);
    }
  }

  lemma NoEqualsNoKey(l: string)
    requires '=' !in l
    ensures PlainKey(l) == None
  {
    hide IsSpace, IsNameStart;
    var rest := TrimLeft(l[NameLength(l)..]);
    assert forall c :: c in rest ==> c in l;
    assert rest != [] ==> rest[0] in rest;
  }

  /** Text before a name: white space, and possibly `export` and more white space. */
  ghost predicate IsLead(lead: string) {
    AllSpace(lead) ||
    exists indent, space :: lead == indent + ("export" + space) && AllSpace(indent) && AllSpace(space) && space != ""
  }

  lemma TrimLeftSplits(l: string) returns (lead: string)
    ensures AllSpace(lead) && l == lead + TrimLeft(l) && (l != [] && IsSpace(l[0]) ==> lead != "")
  {
    hide IsSpace, TrimLeft;
    SpaceGoes(l);
    var n := |l| - |TrimLeft(l)|;
    lead := l[..n];
    assert l == l[..n] + l[n..];
  }

  lemma SpaceGoes(l: string)
    ensures l != [] && IsSpace(l[0]) ==> |TrimLeft(l)| < |l|
  {
    hide IsSpace;
  }

  lemma PlainShape(l: string) returns (gap: string, rest: string)
    requires PlainKey(l).Some?
    ensures IsName(PlainKey(l).value) && AllSpace(gap) && l == PlainKey(l).value + (gap + "=" + rest)
  {
    hide IsSpace, IsNameStart, IsNameChar, TrimLeft, NameLength, IsName, AllSpace;
    var n := NameLength(l);
    var tail := l[n..];
    gap := TrimLeftSplits(tail);
    rest := TrimLeft(tail)[1..];
    Rejoined(l, n, gap, TrimLeft(tail));
    NamePrefix(l);
  }

  lemma Rejoined(l: string, n: nat, gap: string, t: string)
    requires n <= |l| && l[n..] == gap + t && t != [] && t[0] == '='
    ensures l == l[..n] + (gap + "=" + t[1..])
  {
    assert t == "=" + t[1..];
    assert l == l[..n] + l[n..];
    assert gap + ("=" + t[1..]) == gap + "=" + t[1..];
  }

  lemma NamePrefix(l: string)
    requires NameLength(l) > 0 && IsNameStart(l[0])
    ensures IsName(l[..NameLength(l)])
  {
    hide IsNameStart, IsNameChar, NameLength;
  }

  /** A line defines a name only in these shapes. */
  lemma KeyShape(l: string) returns (lead: string, gap: string, rest: string)
    requires LineKey(l).Some?
    ensures IsName(LineKey(l).value) && IsLead(lead) && AllSpace(gap)
    ensures l == lead + (LineKey(l).value + (gap + "=" + rest))
  {
    hide IsSpace, TrimLeft, PlainKey, IsName, AllSpace;
    var t := TrimLeft(l);
    var indent := TrimLeftSplits(l);
    if |t| > 6 && t[..6] == "export" && IsSpace(t[6]) && PlainKey(TrimLeft(t[6..])).Some? {
      var space := TrimLeftSplits(t[6..]);
      assert t[6..][0] == t[6] && space != "";
      gap, rest := PlainShape(TrimLeft(t[6..]));
      lead := indent + ("export" + space);
      ExportedJoins(l, indent, t, space, TrimLeft(t[6..]));
    } else {
      gap, rest := PlainShape(t);
      lead := indent;
    }
  }

  lemma ExportedJoins(l: string, indent: string, t: string, space: string, u: string)
    requires l == indent + t && |t| > 6 && t[..6] == "export" && t[6..] == space + u
    ensures l == indent + ("export" + space) + u
  {
    assert t == t[..6] + t[6..];
  }

  // ----- where definitions stand -----

  /** The first definition of a written key is replaced where it stands: behind the same other lines. */
  lemma KeepsItsPlace(ls: seq<string>, values: Dict<string, string>, i: nat) returns (m: nat)
    requires ValuesOk(values) && i < |ls| && IsOurs(values, ls[i]) && !Defined(ls[..i], LineKey(ls[i]).value)
    ensures m < |NewLines(ls, values)| && NewLines(ls, values)[m] == Define(LineKey(ls[i]).value, values.at[LineKey(ls[i]).value])
    ensures Filter(NewLines(ls, values)[..m], NotOurs(values)) == Filter(ls[..i], NotOurs(values))
  {
    hide LineKey, Define, IsName, Admissible, Defined, Missing, Filter;
    m := |Edited(ls[..i], values)|;
    EditedGrows(ls, values, i + 1);
    EditedGrows(ls[..i + 1], values, i);
    assert ls[..i + 1][..i] == ls[..i] && ls[..i + 1][i] == ls[i];
    EditedSurvivors(ls[..i], values);
    assert NewLines(ls, values)[..m] == Edited(ls[..i], values);
  }

  lemma {:induction false} EditedGrows(ls: seq<string>, values: Dict<string, string>, n: nat)
    requires n <= |ls|
    ensures Edited(ls[..n], values) <= Edited(ls, values)
    decreases |ls|
  {
    hide LineKey, Define, Defined;
    if n < |ls| {
      var m := |ls| - 1;
      EditedGrows(ls[..m], values, n);
      assert ls[..m][..n] == ls[..n];
    } else {
      assert ls[..n] == ls;
    }
  }

  /** Keys no line defines are appended, in the order given; a file without any of the written keys
      keeps all its lines and gains those definitions at its end. */
  lemma AppendsAtTheEnd(ls: seq<string>, values: Dict<string, string>)
    requires ValuesOk(values) && forall k :: k in values.at ==> !Defined(ls, k)
    ensures |NewLines(ls, values)| == |ls| + |values.keys| && NewLines(ls, values)[..|ls|] == ls
    ensures forall i :: 0 <= i < |values.keys| ==> NewLines(ls, values)[|ls| + i] == values.keys[i] + "='" + values.at[values.keys[i]] + "'"
  {
    hide LineKey, IsName, Admissible, Edited;
    EditedUntouched(ls, values);
    FilterAll(values.keys, NotDefined(ls));
    forall i | 0 <= i < |values.keys| ensures DefineFrom(values)(values.keys[i]) == values.keys[i] + "='" + values.at[values.keys[i]] + "'" {
      assert values.keys[i] in values.at;
    }
  }

  lemma {:induction false} EditedUntouched(ls: seq<string>, values: Dict<string, string>)
    requires forall k :: k in values.at ==> !Defined(ls, k)
    ensures Edited(ls, values) == ls
  {
    hide LineKey, Define;
    if ls != [] {
      var n := |ls| - 1;
      forall k | k in values.at ensures !Defined(ls[..n], k) && LineKey(ls[n]) != Some(k) { DefinedExtend(ls, k); }
      EditedUntouched(ls[..n], values);
      assert !IsOurs(values, ls[n]);
    }
  }

  lemma {:induction false} FilterAll<T>(s: seq<T>, p: T -> bool)
    requires forall x :: x in s ==> p(x)
    ensures Filter(s, p) == s
  {
    if s != [] {
      assert s[|s| - 1] in s && forall x :: x in s[..|s| - 1] ==> x in s;
      FilterAll(s[..|s| - 1], p);
    }
  }
}
