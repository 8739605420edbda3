/**
 * The pure parts of the workspace snapshot code: the `git status
 * --porcelain -uall` parser and its fixed code table, the ignored-path set
 * read from `git ls-files -o -i --exclude-standard`, the human-readable
 * size formatter, the MIME fallback and the path sanitiser used to map a
 * request path into the checkout directory.
 *
 * The git commands themselves are not run here: their standard output is a
 * parameter of the parsers.
 */
module Files {
  import opened Wrappers
  import opened PyStr

  // ---------------------------------------------------------------------------
  // Change kinds and the porcelain status parser
  // ---------------------------------------------------------------------------

  /** What git reports about one path; `Unchanged` is the default for unreported paths. */
  datatype ChangeKind = Added | Modified | Deleted | Renamed | Untracked | Unchanged

  /** The string a change kind is reported as in the tree's `status` field. */
  function KindName(k: ChangeKind): string
  {
    match k
    case Added => "added"
    case Modified => "modified"
    case Deleted => "deleted"
    case Renamed => "renamed"
    case Untracked => "untracked"
    case Unchanged => "unchanged"
  }

  /** The fixed code table of the parser; a code outside it is an error. */
  const StatusLookup: map<string, ChangeKind> :=
    map["M" := Modified, "A" := Added, "D" := Deleted, "R" := Renamed, "??" := Untracked]

  /** Why the status output could not be turned into a map. */
  datatype ParseError =
    | NotTwoFields(fields: seq<string>)   // the `s, p` unpacking failed (ValueError)
    | UnknownStatusCode(code: string)     // the code is not a key of the table (KeyError)

  /**
   * One non-empty output line: its whitespace-separated fields must be
   * exactly a code and a path, and the code must be in the table. (The
   * source strips the line before splitting; `split()` ignores whitespace
   * at either end, so the strip changes nothing.)
   */
  function ParseLine(line: string): (r: Result<(string, ChangeKind), ParseError>)
    ensures r.Ok? ==> IsWord(r.value.0) && r.value.1 != Unchanged
    ensures (r.Err? && r.error.NotTwoFields?) <==> |Words(line)| != 2
  {
    var fields := Words(line);
    if |fields| != 2 then Err(NotTwoFields(fields))
    else if fields[0] !in StatusLookup then Err(UnknownStatusCode(fields[0]))
    else Ok((fields[1], StatusLookup[fields[0]]))
  }

  /** The code git prints in the two status columns `XY`, once `split()` has dropped blanks. */
  function PorcelainCode(x: char, y: char): string
  {
    if x == ' ' then [y] else if y == ' ' then [x] else [x, y]
  }

  /**
   * A porcelain line `XY path`: the code in the two status columns is looked
   * up in the table, so ` M`, `M `, `A `, ` D`, `R ` and `??` are accepted and
   * a two-letter code such as `MM` or `UU` is an unknown-code error.
   */
  lemma {:induction false} PorcelainLine(x: char, y: char, path: string)
    requires x == ' ' || !IsSpace(x)
    requires y == ' ' || !IsSpace(y)
    requires x != ' ' || y != ' '
    requires IsWord(path)
    ensures var code := PorcelainCode(x, y);
      ParseLine([x, y, ' '] + path) ==
        if code in StatusLookup then Ok((path, StatusLookup[code])) else Err(UnknownStatusCode(code))
  {
    PorcelainWords(x, y, path);
  }

  /** The fields of a porcelain line `XY path` are its code and its path. */
  lemma PorcelainWords(x: char, y: char, path: string)
    requires x == ' ' || !IsSpace(x)
    requires y == ' ' || !IsSpace(y)
    requires x != ' ' || y != ' '
    requires IsWord(path)
    ensures Words([x, y, ' '] + path) == [PorcelainCode(x, y), path]
  {
    var line := [x, y, ' '] + path;
    var code := PorcelainCode(x, y);
    var ws := if x == ' ' then ["", [y], path] else if y == ' ' then [[x], "", path] else [[x, y], path];
    assert line == Join(ws, ' ') by {
      assert Join([path], ' ') == path;
      if x == ' ' || y == ' ' {
        assert ws[1..][1..] == [path];
        assert ws[1..] == [ws[1], path];
      } else {
        assert ws[1..] == [path];
      }
    }
    WordsJoinBlanks(ws);
    assert NonEmpty(ws) == [code, path] by {
      assert NonEmpty([path]) == [path] by {
        assert [path][1..] == [];
      }
      if x == ' ' || y == ' ' {
        assert ws[1..][1..] == [path];
        assert NonEmpty(ws[1..]) == (if ws[1] == "" then [] else [ws[1]]) + [path];
      } else {
        assert ws[1..] == [path];
      }
    }
  }

  /**
   * A staged rename is printed `R  old -> new`: four fields, so the unpacking
   * fails and the whole status is an error; a `renamed` kind is never
   * produced from such a line.
   */
  lemma RenameLineRejected(src: string, dst: string)
    requires IsWord(src) && IsWord(dst)
    ensures ParseLine("R  " + src + " -> " + dst) == Err(NotTwoFields(["R", src, "->", dst]))
  {
    RenameLineWords(src, dst);
  }

  /** The fields of `R  old -> new` are the code, the old path, the arrow and the new path. */
  lemma RenameLineWords(src: string, dst: string)
    requires IsWord(src) && IsWord(dst)
    ensures Words("R  " + src + " -> " + dst) == ["R", src, "->", dst]
  {
    var tail := [src, "->", dst];
    var ws := ["R", ""] + tail;
    RenameLineJoin(src, dst);
    WordsJoinBlanks(ws);
    NonEmptyKeepsAll(tail);
    assert NonEmpty(ws) == ["R"] + tail by {
      assert ws[1..] == [""] + tail;
      assert ws[1..][1..] == tail;
    }
  }

  /** `R  old -> new` is the blank-joined code, an empty field, the old path, the arrow and the new path. */
  lemma RenameLineJoin(src: string, dst: string)
    ensures Join(["R", "", src, "->", dst], ' ') == "R  " + src + " -> " + dst
  {
    var tail := [src, "->", dst];
    var ws := ["R", ""] + tail;
    assert ws == ["R", "", src, "->", dst];
    assert Join(tail, ' ') == src + " -> " + dst by {
      assert tail[1..] == ["->", dst];
      assert tail[1..][1..] == [dst];
      assert Join([dst], ' ') == dst;
    }
    assert ws[1..] == [""] + tail;
    assert ws[1..][1..] == tail;
  }

  /** Every line parses. */
  predicate AllParse(lines: seq<string>)
  {
    forall i :: 0 <= i < |lines| ==> ParseLine(lines[i]).Ok?
  }

  /** Line `i` is the first line that does not parse. */
  predicate FirstFailure(lines: seq<string>, i: int)
  {
    0 <= i < |lines| && ParseLine(lines[i]).Err? && forall j :: 0 <= j < i ==> ParseLine(lines[j]).Ok?
  }

  /**
   * The lines in order, parsed; the first line that fails decides the error,
   * as the dict comprehension stops at the first exception.
   */
  function ParseAll(lines: seq<string>): (r: Result<seq<(string, ChangeKind)>, ParseError>)
    ensures r.Ok? <==> AllParse(lines)
    ensures r.Ok? ==> |r.value| == |lines|
    ensures r.Ok? ==> forall i :: 0 <= i < |lines| ==> ParseLine(lines[i]) == Ok(r.value[i])
    ensures r.Err? ==> exists i :: FirstFailure(lines, i) && ParseLine(lines[i]) == Err(r.error)
  {
    if lines == [] then Ok([])
    else
      match ParseLine(lines[0])
      case Err(e) => Err(e)
      case Ok(entry) =>
        match ParseAll(lines[1..])
        case Err(e) =>
          assert forall i :: 1 <= i < |lines| ==> lines[i] == lines[1..][i - 1];
          Err(e)
        case Ok(rest) =>
          assert forall i :: 1 <= i < |lines| ==> lines[i] == lines[1..][i - 1];
          Ok([entry] + rest)
  }

  /**
   * A Python dict from path to change kind: `kinds` is its content and
   * `order` its key order (the order in which keys were first inserted).
   */
  datatype Changes = Changes(order: seq<string>, kinds: map<string, ChangeKind>)

  /** `order` lists every key of `kinds` exactly once. */
  predicate WellFormed(c: Changes)
  {
    && (forall i, j :: 0 <= i < j < |c.order| ==> c.order[i] != c.order[j])
    && (forall p :: p in c.kinds ==> p in c.order)
    && (forall i :: 0 <= i < |c.order| ==> c.order[i] in c.kinds)
  }

  /** `d[p] = k`: an existing key keeps its place, a new key goes last. */
  function Put(c: Changes, p: string, k: ChangeKind): Changes
  {
    if p in c.kinds then c.(kinds := c.kinds[p := k]) else Changes(c.order + [p], c.kinds[p := k])
  }

  /** `changes.get(p, 'unchanged')`. */
  function KindOf(c: Changes, p: string): ChangeKind
  {
    if p in c.kinds then c.kinds[p] else Unchanged
  }

  /** The paths the entries name. */
  function Paths(entries: seq<(string, ChangeKind)>): set<string>
  {
    set i | 0 <= i < |entries| :: entries[i].0
  }

  /** Entry `i` is the last one naming its path. */
  predicate LastFor(entries: seq<(string, ChangeKind)>, i: int)
    requires 0 <= i < |entries|
  {
    forall j :: i < j < |entries| ==> entries[j].0 != entries[i].0
  }

  /** `d[p] = k` keeps the key order a list of distinct keys naming exactly the dict's keys. */
  lemma PutWellFormed(c: Changes, p: string, k: ChangeKind)
    requires WellFormed(c)
    ensures WellFormed(Put(c, p, k))
  {
    if p !in c.kinds {
      var d := Put(c, p, k);
      assert forall i :: 0 <= i < |c.order| ==> d.order[i] == c.order[i];
    }
  }

  /** `{p: k for p, k in entries}`: entries are inserted in order, so a later entry overrides. */
  function ToDict(entries: seq<(string, ChangeKind)>): Changes
  {
    if entries == [] then Changes([], map[])
    else Put(ToDict(entries[..|entries| - 1]), entries[|entries| - 1].0, entries[|entries| - 1].1)
  }

  /** The dict of the entries has a well-formed key order and exactly their paths as keys. */
  lemma {:induction false} ToDictKeys(entries: seq<(string, ChangeKind)>)
    ensures WellFormed(ToDict(entries))
    ensures ToDict(entries).kinds.Keys == Paths(entries)
  {
    if entries != [] {
      var n := |entries| - 1;
      var init := entries[..n];
      ToDictKeys(init);
      PutWellFormed(ToDict(init), entries[n].0, entries[n].1);
      assert forall i :: 0 <= i < n ==> init[i].0 == entries[i].0;
      assert Paths(entries) == Paths(init) + {entries[n].0};
    }
  }

  /** Every value of the dict is the kind some entry gave its key. */
  lemma {:induction false} ToDictValues(entries: seq<(string, ChangeKind)>, p: string)
    requires p in ToDict(entries).kinds
    ensures exists i :: 0 <= i < |entries| && entries[i] == (p, ToDict(entries).kinds[p])
  {
    var n := |entries| - 1;
    var init := entries[..n];
    var d := ToDict(entries);
    if p == entries[n].0 {
      assert entries[n] == (p, d.kinds[p]);
    } else {
      ToDictValues(init, p);
      var i :| 0 <= i < |init| && init[i] == (p, ToDict(init).kinds[p]);
      assert entries[i] == (p, d.kinds[p]);
    }
  }

  /** Last one wins: the entry that is last for its path gives that path's kind. */
  lemma {:induction false} ToDictLastWins(entries: seq<(string, ChangeKind)>, i: nat)
    requires i < |entries| && LastFor(entries, i)
    ensures entries[i].0 in ToDict(entries).kinds
    ensures ToDict(entries).kinds[entries[i].0] == entries[i].1
  {
    var n := |entries| - 1;
    if i < n {
      var init := entries[..n];
      assert LastFor(init, i) by {
        forall j | i < j < |init| ensures init[j].0 != init[i].0 {
          assert init[j] == entries[j];
        }
      }
      ToDictLastWins(init, i);
    }
  }

  /** Some entry before position `j` names `p`. */
  predicate NamedBefore(entries: seq<(string, ChangeKind)>, p: string, j: int)
  {
    exists i :: 0 <= i < j && i < |entries| && entries[i].0 == p
  }

  /**
   * `order` is first-insertion order: before any entry naming a later key,
   * an entry naming each earlier key has already appeared.
   */
  predicate InsertionOrdered(order: seq<string>, entries: seq<(string, ChangeKind)>)
  {
    forall a, b, j :: 0 <= a < b < |order| && 0 <= j < |entries| && entries[j].0 == order[b] ==>
      NamedBefore(entries, order[a], j)
  }

  /** The dict iterates its keys in the order in which the entries first name them. */
  lemma {:induction false} ToDictOrder(entries: seq<(string, ChangeKind)>)
    ensures InsertionOrdered(ToDict(entries).order, entries)
  {
    if entries != [] {
      var n := |entries| - 1;
      var init, e := entries[..n], entries[n];
      assert entries == init + [e];
      var c := ToDict(init);
      var order := ToDict(entries).order;
      ToDictOrder(init);
      ToDictKeys(init);
      forall a, b, j | 0 <= a < b < |order| && 0 <= j < |entries| && entries[j].0 == order[b]
        ensures NamedBefore(entries, order[a], j)
      {
        if b < |c.order| {
          OrderStepOldKey(init, e, a, b, j);
        } else {
          OrderStepNewKey(init, e, a, j);
        }
      }
    }
  }

  /** Appending an entry keeps the first-insertion order of the keys already present. */
  lemma OrderStepOldKey(init: seq<(string, ChangeKind)>, e: (string, ChangeKind), a: int, b: int, j: int)
    requires InsertionOrdered(ToDict(init).order, init)
    requires WellFormed(ToDict(init)) && ToDict(init).kinds.Keys == Paths(init)
    requires 0 <= a < b < |ToDict(init).order| && 0 <= j <= |init|
    requires (init + [e])[j].0 == ToDict(init).order[b]
    ensures NamedBefore(init + [e], ToDict(init).order[a], j)
  {
    var order := ToDict(init).order;
    var k := j;
    if j == |init| {
      assert order[b] in Paths(init);
      k :| 0 <= k < |init| && init[k].0 == order[b];
    } else {
      assert init[j] == (init + [e])[j];
    }
    assert NamedBefore(init, order[a], k);
    var i :| 0 <= i < k && i < |init| && init[i].0 == order[a];
    assert (init + [e])[i] == init[i];
  }

  /** A key the appended entry adds comes after every key already present. */
  lemma OrderStepNewKey(init: seq<(string, ChangeKind)>, e: (string, ChangeKind), a: int, j: int)
    requires WellFormed(ToDict(init)) && ToDict(init).kinds.Keys == Paths(init)
    requires e.0 !in ToDict(init).kinds
    requires 0 <= a < |ToDict(init).order| && 0 <= j <= |init| && (init + [e])[j].0 == e.0
    ensures NamedBefore(init + [e], ToDict(init).order[a], j)
  {
    var order := ToDict(init).order;
    if j < |init| {
      assert false;
    }
    assert order[a] in Paths(init);
    var i :| 0 <= i < |init| && init[i].0 == order[a];
    assert (init + [e])[i] == init[i];
  }

  /** The non-empty lines of the status output, the ones the parser reads. */
  function StatusLines(output: string): seq<string>
  {
    NonEmpty(Split(output, '\n'))
  }

  /**
   * `get_changes`: every non-empty line of the status output is parsed; a
   * line that is not exactly a code and a path, or whose code is not in the
   * table, fails the whole call with the error of the first such line.
   */
  function GetChanges(output: string): (r: Result<Changes, ParseError>)
    ensures r.Ok? <==> AllParse(StatusLines(output))
    ensures r.Err? ==>
      exists i :: FirstFailure(StatusLines(output), i) && ParseLine(StatusLines(output)[i]) == Err(r.error)
  {
    match ParseAll(StatusLines(output))
    case Err(e) => Err(e)
    case Ok(entries) => Ok(ToDict(entries))
  }

  /**
   * A successful `get_changes` has a well-formed key order and a key for the
   * path of every line.
   */
  lemma GetChangesKeys(output: string)
    requires GetChanges(output).Ok?
    ensures WellFormed(GetChanges(output).value)
    ensures var lines, d := StatusLines(output), GetChanges(output).value;
      forall i :: 0 <= i < |lines| ==> ParseLine(lines[i]).value.0 in d.kinds
  {
    var lines := StatusLines(output);
    var entries := ParseAll(lines).value;
    var d := ToDict(entries);
    assert d == GetChanges(output).value;
    ToDictKeys(entries);
    forall i | 0 <= i < |lines| ensures ParseLine(lines[i]).value.0 in d.kinds {
      assert ParseLine(lines[i]) == Ok(entries[i]);
      assert entries[i].0 in Paths(entries);
    }
  }

  /**
   * A successful `get_changes` lists its keys in the order in which the
   * status lines first name them (entry `i` is the parse of line `i`).
   */
  lemma GetChangesOrder(output: string)
    requires GetChanges(output).Ok?
    ensures InsertionOrdered(GetChanges(output).value.order, ParseAll(StatusLines(output)).value)
  {
    ToDictOrder(ParseAll(StatusLines(output)).value);
  }

  /**
   * Every key of a successful `get_changes` is the path of some line, with
   * that line's kind; `unchanged` never appears.
   */
  lemma GetChangesValues(output: string)
    requires GetChanges(output).Ok?
    ensures var lines, d := StatusLines(output), GetChanges(output).value;
      forall p :: p in d.kinds ==> exists i :: 0 <= i < |lines| && ParseLine(lines[i]) == Ok((p, d.kinds[p]))
    ensures var d := GetChanges(output).value;
      forall p :: p in d.kinds ==> d.kinds[p] != Unchanged
  {
    var lines := StatusLines(output);
    var entries := ParseAll(lines).value;
    var d := ToDict(entries);
    assert d == GetChanges(output).value;
    forall p | p in d.kinds ensures exists i :: 0 <= i < |lines| && ParseLine(lines[i]) == Ok((p, d.kinds[p])) {
      ToDictValues(entries, p);
      var i :| 0 <= i < |entries| && entries[i] == (p, d.kinds[p]);
      assert ParseLine(lines[i]) == Ok((p, d.kinds[p]));
    }
  }

  /** In a successful `get_changes`, the last line naming a path gives that path's kind. */
  lemma GetChangesLastWins(output: string)
    requires GetChanges(output).Ok?
    ensures var lines, d := StatusLines(output), GetChanges(output).value;
      forall i :: 0 <= i < |lines| && LastLine(lines, i) ==>
        ParseLine(lines[i]).value.0 in d.kinds && d.kinds[ParseLine(lines[i]).value.0] == ParseLine(lines[i]).value.1
  {
    var lines := StatusLines(output);
    var entries := ParseAll(lines).value;
    var d := ToDict(entries);
    assert d == GetChanges(output).value;
    forall i | 0 <= i < |lines| && LastLine(lines, i)
      ensures ParseLine(lines[i]).value.0 in d.kinds && d.kinds[ParseLine(lines[i]).value.0] == ParseLine(lines[i]).value.1
    {
      assert ParseLine(lines[i]) == Ok(entries[i]);
      assert LastFor(entries, i) by {
        forall j | i < j < |entries| ensures entries[j].0 != entries[i].0 {
          assert ParseLine(lines[j]).value.0 != ParseLine(lines[i]).value.0;
        }
      }
      ToDictLastWins(entries, i);
    }
  }

  /** Line `i` parses and is the last line naming its path (every line parses). */
  predicate LastLine(lines: seq<string>, i: int)
    requires 0 <= i < |lines|
  {
    && AllParse(lines)
    && forall j :: i < j < |lines| ==> ParseLine(lines[j]).value.0 != ParseLine(lines[i]).value.0
  }

  /**
   * `get_ignored`: the non-empty lines of the output; the empty string is
   * never a member.
   */
  function GetIgnored(output: string): (r: set<string>)
    ensures "" !in r
    ensures forall p :: p in r ==> '\n' !in p
  {
    set p | p in Split(output, '\n') && p != ""
  }

  /** Round trip: the ignored set of newline-joined paths is those paths, bar the empty one. */
  lemma IgnoredRoundTrip(paths: seq<string>)
    requires forall i :: 0 <= i < |paths| ==> '\n' !in paths[i]
    ensures GetIgnored(Join(paths, '\n')) == (set i | 0 <= i < |paths| :: paths[i]) - {""}
  {
    if paths != [] {
      SplitJoin(paths, '\n');
    }
  }

  // ---------------------------------------------------------------------------
  // Size formatting
  // ---------------------------------------------------------------------------

  const KB: nat := 1024
  const MB: nat := KB * KB

  /** The argument of `_fmt_size`: the empty string, or a byte count. */
  datatype SizeArg = NoSize | Bytes(n: nat)

  /**
   * The integer nearest to `num / den`, ties to the even one: how Python
   * rounds an exactly representable float to a fixed number of decimals.
   */
  function RoundHalfEven(num: nat, den: nat): (q: nat)
    requires den > 0
    ensures 2 * num <= (2 * q + 1) * den
    ensures (2 * q - 1) * den <= 2 * num
    ensures 2 * num == (2 * q + 1) * den || 2 * num == (2 * q - 1) * den ==> q % 2 == 0
  {
    NearestIsNearest(num, den);
    NearestOf(num / den, num % den, den)
  }

  /** Rounding the quotient by its remainder lands within half a divisor of the exact value. */
  lemma NearestIsNearest(num: nat, den: nat)
    requires den > 0
    ensures var q := NearestOf(num / den, num % den, den);
      && 2 * num <= (2 * q + 1) * den
      && (2 * q - 1) * den <= 2 * num
      && (2 * num == (2 * q + 1) * den || 2 * num == (2 * q - 1) * den ==> q % 2 == 0)
  {
    var f, rem := num / den, num % den;
    assert num == f * den + rem && rem < den;
    RoundingBounds(num, den, f, rem, NearestOf(f, rem, den));
  }

  /** Rounding `f + rem / den`: down below a half, up above, to the even one at exactly a half. */
  function NearestOf(f: nat, rem: nat, den: nat): nat
  {
    if 2 * rem < den then f
    else if 2 * rem > den then f + 1
    else if f % 2 == 0 then f
    else f + 1
  }

  /**
   * The arithmetic behind rounding: choosing the quotient `f` when the
   * remainder is at most half the divisor, and `f + 1` when it is at least
   * half, lands within half a divisor of the exact value.
   */
  lemma RoundingBounds(num: nat, den: nat, f: nat, rem: nat, q: nat)
    requires den > 0 && num == f * den + rem && rem < den
    requires q == f || q == f + 1
    requires q == f ==> 2 * rem <= den
    requires q == f + 1 ==> 2 * rem >= den
    requires 2 * rem == den ==> q % 2 == 0
    ensures 2 * num <= (2 * q + 1) * den
    ensures (2 * q - 1) * den <= 2 * num
    ensures 2 * num == (2 * q + 1) * den || 2 * num == (2 * q - 1) * den ==> q % 2 == 0
  {
    var qd := q * den;
    assert (2 * q + 1) * den == 2 * qd + den;
    assert (2 * q - 1) * den == 2 * qd - den;
    if q == f + 1 {
      assert qd == f * den + den;
    }
  }

  /** `'{:0.1f}'` of `tenths / 10`: integer part, a point, one digit. */
  function OneDecimal(tenths: nat): string
  {
    Decimal(tenths / 10) + "." + [DigitChar(tenths % 10)]
  }

  /** `_fmt_size` with the 1024 and 1024 * 1024 thresholds. */
  function FmtSize(size: SizeArg): string
  {
    match size
    case NoSize => ""
    case Bytes(n) =>
      if n < KB then Decimal(n) + "B"
      else if n < MB then OneDecimal(RoundHalfEven(10 * n, KB)) + "KB"
      else OneDecimal(RoundHalfEven(10 * n, MB)) + "MB"
  }

  predicate EndsWith(s: string, suffix: string)
  {
    |suffix| <= |s| && s[|s| - |suffix|..] == suffix
  }

  /** The printed number of a one-decimal rendering reads back as the tenths it came from. */
  lemma OneDecimalValue(tenths: nat)
    ensures var s := OneDecimal(tenths);
      |s| >= 3 && s[|s| - 2] == '.' && AllDigits(s[..|s| - 2]) && '0' <= s[|s| - 1] <= '9' &&
      10 * DecimalValue(s[..|s| - 2]) + DigitValue(s[|s| - 1]) == tenths
  {
    var s := OneDecimal(tenths);
    assert s[..|s| - 2] == Decimal(tenths / 10);
    DecimalRoundTrip(tenths / 10);
  }

  /**
   * The unit is chosen by the thresholds: `B` with the exact digits below
   * 1024, `KB` from 1024 up to 1024 * 1024 (exclusive), `MB` from there on;
   * in the `KB` and `MB` cases the printed tenths are the nearest to the
   * exact quotient. The empty argument gives the empty string.
   */
  lemma FmtSizeUnits(size: SizeArg)
    ensures var r := FmtSize(size);
      && (r == "" <==> size.NoSize?)
      && (size.Bytes? ==> EndsWith(r, "B"))
      && (size.Bytes? ==> (EndsWith(r, "KB") <==> KB <= size.n < MB))
      && (size.Bytes? ==> (EndsWith(r, "MB") <==> MB <= size.n))
      && (size.Bytes? && size.n < KB ==> AllDigits(r[..|r| - 1]) && DecimalValue(r[..|r| - 1]) == size.n)
      && (size.Bytes? && KB <= size.n < MB ==>
            exists t: nat :: r == OneDecimal(t) + "KB" && 2 * 10 * size.n <= (2 * t + 1) * KB &&
              (2 * t - 1) * KB <= 2 * 10 * size.n)
      && (size.Bytes? && MB <= size.n ==>
            exists t: nat :: r == OneDecimal(t) + "MB" && 2 * 10 * size.n <= (2 * t + 1) * MB &&
              (2 * t - 1) * MB <= 2 * 10 * size.n)
  {
    var r := FmtSize(size);
    if size.Bytes? {
      var n := size.n;
      if n < KB {
        var d := Decimal(n);
        assert r[..|r| - 1] == d;
        DecimalRoundTrip(n);
        assert r[|r| - 2] == d[|d| - 1];
      } else if n < MB {
        var t := RoundHalfEven(10 * n, KB);
        assert r == OneDecimal(t) + "KB";
      } else {
        var t := RoundHalfEven(10 * n, MB);
        assert r == OneDecimal(t) + "MB";
      }
    }
  }

  /** Worked values below 1024: the exact count of bytes. */
  lemma FmtSizeByteExamples()
    ensures FmtSize(NoSize) == ""
    ensures FmtSize(Bytes(0)) == "0B"
    ensures FmtSize(Bytes(1023)) == "1023B"
  {
    assert Decimal(0) == "0";
    assert Decimal(1) == "1";
    assert Decimal(10) == Decimal(1) + "0" == "10";
    assert Decimal(102) == Decimal(10) + "2" == "102";
    assert Decimal(1023) == Decimal(102) + "3" == "1023";
  }

  /** 1024 bytes is exactly one kilobyte: `1.0KB`. */
  lemma FmtSizeOneKilobyte()
    ensures FmtSize(Bytes(1024)) == "1.0KB"
  {
    assert 10240 / 1024 == 10 && 10240 % 1024 == 0;
    assert RoundHalfEven(10240, 1024) == 10;
    assert Decimal(1) == "1";
    assert OneDecimal(10) == "1.0";
  }

  /** 1280 bytes is 1.25 KB, a tie between 1.2 and 1.3, rounded to the even tenth: `1.2KB`. */
  lemma FmtSizeTieToEven()
    ensures FmtSize(Bytes(1280)) == "1.2KB"
  {
    assert 12800 / 1024 == 12 && 12800 % 1024 == 512;
    assert NearestOf(12, 512, 1024) == 12;
    assert RoundHalfEven(12800, 1024) == 12;
    assert Decimal(1) == "1";
    assert OneDecimal(12) == "1.2";
  }

  /** The largest kilobyte value rounds up to `1024.0KB` rather than switching unit. */
  lemma FmtSizeKilobyteCeiling()
    ensures FmtSize(Bytes(1048575)) == "1024.0KB"
  {
    assert 10485750 / 1024 == 10239 && 10485750 % 1024 == 1014;
    assert NearestOf(10239, 1014, 1024) == 10240;
    assert RoundHalfEven(10485750, 1024) == 10240;
    assert Decimal(10) == Decimal(1) + "0" == "10";
    assert Decimal(102) == Decimal(10) + "2" == "102";
    assert Decimal(1024) == Decimal(102) + "4" == "1024";
    assert OneDecimal(10240) == "1024.0";
  }

  /** Worked values in megabytes. */
  lemma FmtSizeMegabyteExamples()
    ensures FmtSize(Bytes(1048576)) == "1.0MB"
    ensures FmtSize(Bytes(1572864)) == "1.5MB"
  {
    assert Decimal(1) == "1";
    assert 10485760 / 1048576 == 10 && 10485760 % 1048576 == 0;
    assert RoundHalfEven(10485760, 1048576) == 10;
    assert OneDecimal(10) == "1.0";
    assert 15728640 / 1048576 == 15 && 15728640 % 1048576 == 0;
    assert RoundHalfEven(15728640, 1048576) == 15;
    assert OneDecimal(15) == "1.5";
  }

  // ---------------------------------------------------------------------------
  // MIME type
  // ---------------------------------------------------------------------------

  /**
   * `_mime_type`: the guess (the library lookup is a parameter), or
   * `text/plain` when there is none or it is empty (`guess or 'text/plain'`).
   */
  function MimeType(guess: string -> Option<string>, name: string): (m: string)
    ensures m != ""
    ensures guess(name).Some? && guess(name).value != "" ==> m == guess(name).value
    ensures !(guess(name).Some? && guess(name).value != "") ==> m == "text/plain"
  {
    match guess(name)
    case Some(t) => if t != "" then t else "text/plain"
    case None => "text/plain"
  }

  // ---------------------------------------------------------------------------
  // Path sanitising
  // ---------------------------------------------------------------------------

  /** The characters `fs_path` strips from both ends. */
  const DotSlash: set<char> := {'.', '/'}

  /**
   * The relative part `fs_path` appends to the checkout directory:
   * `path.strip('./').replace('..', '.')`. It never begins or ends with a
   * dot or a slash.
   */
  function FsRelative(path: string): (rel: string)
    ensures |rel| <= |path|
    ensures rel == [] || (rel[0] !in DotSlash && rel[|rel| - 1] !in DotSlash)
  {
    var stripped := Strip(path, DotSlash);
    ReplaceDotsShape(stripped);
    Replace(stripped, "..", ".")
  }

  /** The pieces pathlib keeps when it parses a relative path: empty and `.` ones are dropped. */
  function PathComponents(pieces: seq<string>): (parts: seq<string>)
    ensures forall x :: x in parts <==> x in pieces && x != "" && x != "."
  {
    if pieces == [] then []
    else
      assert forall x :: x in pieces <==> x == pieces[0] || x in pieces[1..];
      (if pieces[0] == "" || pieces[0] == "." then [] else [pieces[0]]) + PathComponents(pieces[1..])
  }

  /** pathlib parses the pieces one after another: a concatenation keeps the order of its halves. */
  lemma {:induction false} PathComponentsAppend(a: seq<string>, b: seq<string>)
    ensures PathComponents(a + b) == PathComponents(a) + PathComponents(b)
  {
    if a == [] {
      assert a + b == b;
    } else {
      assert (a + b)[1..] == a[1..] + b;
      PathComponentsAppend(a[1..], b);
    }
  }

  /** pathlib keeps every piece other than `""` and `.` as often as it occurs. */
  lemma {:induction false} PathComponentsCount(pieces: seq<string>, x: string)
    ensures multiset(PathComponents(pieces))[x] == if x == "" || x == "." then 0 else multiset(pieces)[x]
  {
    if pieces != [] {
      var y, rest := pieces[0], pieces[1..];
      PathComponentsCount(rest, x);
      assert pieces == [y] + rest;
      assert multiset(pieces)[x] == multiset{y}[x] + multiset(rest)[x];
      if y == "" || y == "." {
        assert PathComponents(pieces) == PathComponents(rest);
      } else {
        assert PathComponents(pieces) == [y] + PathComponents(rest);
      }
    }
  }

  /**
   * `fs_path(path)` as the components below the checkout directory that
   * pathlib's `CODE_DIR / rel` holds: none is empty, `.` or contains a slash.
   */
  function FsPath(path: string): (parts: seq<string>)
    ensures forall x :: x in parts ==> x != "" && x != "." && '/' !in x
  {
    PathComponents(Split(FsRelative(path), '/'))
  }

  /** `strip` keeps a contiguous part of its input, so it cannot create a run of three dots. */
  lemma StripKeepsNoDotTriple(s: string)
    requires NoDotTriple(s)
    ensures NoDotTriple(Strip(s, DotSlash))
  {
    var l := LStrip(s, DotSlash);
    NoDotTripleSlice(s, |s| - |l|, |s|);
    assert s[|s| - |l|..|s|] == l;
    var r := RStrip(l, DotSlash);
    NoDotTripleSlice(l, 0, |r|);
    assert l[0..|r|] == r;
  }

  /** A contiguous part of a string without three adjacent dots has none either. */
  lemma NoDotTripleSlice(s: string, a: nat, b: nat)
    requires a <= b <= |s|
    requires NoDotTriple(s)
    ensures NoDotTriple(s[a..b])
  {
    var t := s[a..b];
    forall i | 0 <= i < |t| - 2 ensures !DotTripleAt(t, i) {
      assert !DotTripleAt(s, a + i);
    }
  }

  /** The parent-directory component is itself a run of two dots. */
  lemma DotDotHasPair()
    ensures !NoDotPair("..")
  {
    assert DotPairAt("..", 0);
  }

  /**
   * As written, the sanitiser removes parent-directory steps only from paths
   * with no run of three dots: then no component of `fs_path` is `..`.
   */
  lemma FsPathNoParentWithoutTriple(path: string)
    requires NoDotTriple(path)
    ensures ".." !in FsPath(path)
  {
    var stripped := Strip(path, DotSlash);
    StripKeepsNoDotTriple(path);
    ReplaceDotsNoPair(stripped);
    var rel := FsRelative(path);
    SplitKeepsNoDotPair(rel, '/');
    var pieces := Split(rel, '/');
    DotDotHasPair();
  }

  /** As written, a run of three dots survives the sanitiser as `..` ... */
  lemma FsRelativeKeepsDots()
    ensures FsRelative("a/.../b") == "a/../b"
  {
    var s := "a/.../b";
    assert Strip(s, DotSlash) == s by {
      assert s[0] == 'a' && s[|s| - 1] == 'b';
      assert 'a' !in DotSlash && 'b' !in DotSlash;
      assert LStrip(s, DotSlash) == s;
      assert RStrip(s, DotSlash) == s;
    }
    ReplaceSinglePass();
  }

  /** `"a/../b".split('/')` is `a`, `..`, `b`. */
  lemma SplitParentStep()
    ensures Split("a/../b", '/') == ["a", "..", "b"]
  {
    var pieces := ["a", "..", "b"];
    assert Join(pieces[1..], '/') == "../b" by {
      assert pieces[1..][1..] == ["b"];
    }
    assert Join(pieces, '/') == "a/../b";
    SplitJoin(pieces, '/');
  }

  /**
   * ... and so `a/.../b` maps to the components `a`, `..`, `b`, a step out
   * of the directory `a`.
   */
  lemma FsPathKeepsParentStep()
    ensures FsPath("a/.../b") == ["a", "..", "b"]
  {
    FsRelativeKeepsDots();
    SplitParentStep();
    ComponentsParentStep();
  }

  /** pathlib keeps all three of `a`, `..`, `b`. */
  lemma ComponentsParentStep()
    ensures PathComponents(["a", "..", "b"]) == ["a", "..", "b"]
  {
    var pieces := ["a", "..", "b"];
    assert pieces[2..][1..] == [];
    assert PathComponents(pieces[2..]) == ["b"];
    assert pieces[1..][1..] == pieces[2..];
    assert ".." != "" && ".." != ".";
    assert PathComponents(pieces[1..]) == ["..", "b"];
  }

  /**
   * Corrected sanitiser: repeat `replace('..', '.')` until no `..` is left,
   * so no run of dots of any length survives.
   */
  function CollapseDots(s: string): (r: string)
    ensures NoDotPair(r)
    decreases |s|
  {
    if NoDotPair(s) then s
    else
      ReplaceDotsShrinks(s);
      CollapseDots(Replace(s, "..", "."))
  }

  /** `fs_path` with the corrected collapse: no component is ever `..`. */
  function FsPathFixed(path: string): (parts: seq<string>)
    ensures forall x :: x in parts ==> x != "" && x != "." && x != ".." && '/' !in x
  {
    var rel := CollapseDots(Strip(path, DotSlash));
    SplitKeepsNoDotPair(rel, '/');
    var pieces := Split(rel, '/');
    DotDotHasPair();
    PathComponents(pieces)
  }

  /**
   * The correction changes only the faulty case: for a path without three
   * adjacent dots, the corrected and the as-written sanitiser agree.
   */
  lemma FsPathFixedAgrees(path: string)
    requires NoDotTriple(path)
    ensures FsPathFixed(path) == FsPath(path)
  {
    var stripped := Strip(path, DotSlash);
    StripKeepsNoDotTriple(path);
    ReplaceDotsNoPair(stripped);
    ReplaceDotsShape(stripped);
    var once := Replace(stripped, "..", ".");
    assert CollapseDots(once) == once;
    assert CollapseDots(stripped) == once;
  }
}
