/**
 * Config.fromFile: reads `key=value` lines into a configuration record.
 * The file is given as its sequence of lines; opening and reading it is
 * not part of this model.
 */
module ConfigFile {
  import opened Results
  import opened JavaInt
  import opened JavaString

  /** The fields of DiningPhilosophers.Config; `variacao` is a String that stays null until assigned. */
  datatype Config = Config(
    filosofos: int32,
    duracaoSeg: int32,
    thinkMinMs: int32,
    thinkMaxMs: int32,
    eatMinMs: int32,
    eatMaxMs: int32,
    variacao: Option<string>)

  /** A fresh Config: every int field 0, `variacao` null. */
  const Default: Config := Config(0, 0, 0, 0, 0, 0, None)

  /** The unchecked exceptions that escape fromFile. */
  datatype ConfigError =
    | NumberFormat(input: string)      // NumberFormatException from Integer.parseInt
    | IndexOutOfBounds(index: nat)     // ArrayIndexOutOfBoundsException on the range array

  /** Integer.parseInt on a field value, with its exception as an error. */
  function ParseField(s: string): Result<int32, ConfigError>
  {
    match ParseInt(s)
    case Some(v) => Ok(v)
    case None => Err(NumberFormat(s))
  }

  /**
   * A `min-max` value: split on '-', parse range[0], then read range[1].
   * Any pieces after the second are ignored.
   */
  function ParseRange(value: string): (r: Result<(int32, int32), ConfigError>)
    ensures r.Ok? ==> '-' in value
    ensures r.Ok? ==> 0 <= r.value.0 && 0 <= r.value.1
  {
    SplitPiecesFree(value, '-');
    var range := Split(value, '-');
    if |range| == 0 then Err(IndexOutOfBounds(0))
    else
      var lo :- ParseField(range[0]);
      if |range| == 1 then Err(IndexOutOfBounds(1))
      else
        var hi :- ParseField(range[1]);
        Ok((lo, hi))
  }

  /** Two non-negative ints written as "lo-hi" are read back as (lo, hi). */
  lemma RangeRoundTrip(lo: int32, hi: int32)
    requires 0 <= lo && 0 <= hi
    ensures ParseRange(ShowInt(lo) + "-" + ShowInt(hi)) == Ok((lo, hi))
  {
    ShowNonNegative(lo);
    ShowNonNegative(hi);
    SplitPair(ShowInt(lo), ShowInt(hi), '-');
    ParseShow(lo);
    ParseShow(hi);
  }

  /** A value without '-' never yields a range: range[1] does not exist, unless parsing range[0] already failed. */
  lemma RangeNeedsHyphen(value: string)
    requires '-' !in value
    ensures ParseRange(value).Err?
    ensures ParseInt(value).Some? ==> ParseRange(value) == Err(IndexOutOfBounds(1))
    ensures ParseInt(value).None? ==> ParseRange(value) == Err(NumberFormat(value))
  {
  }

  /** filosofos and duracao_seg read back every `int` written in decimal. */
  lemma FieldRoundTrip(n: int32)
    ensures ParseField(ShowInt(n)) == Ok(n)
  {
    ParseShow(n);
  }

  /**
   * The pieces of a range are not trimmed: a blank before the '-' makes the
   * lower bound unreadable.
   */
  lemma RangePiecesNotTrimmed(lo: int32, hi: int32)
    requires 0 <= lo && 0 <= hi
    ensures ParseRange(ShowInt(lo) + " -" + ShowInt(hi)) == Err(NumberFormat(ShowInt(lo) + " "))
  {
    ShowNonNegative(lo);
    ShowNonNegative(hi);
    var a := ShowInt(lo) + " ";
    assert ShowInt(lo) + " -" + ShowInt(hi) == a + ['-'] + ShowInt(hi);
    SplitPair(a, ShowInt(hi), '-');
    assert !IsDigit(a[|a| - 1]);
    assert !IntLiteral(a);
  }

  /** The keys fromFile recognises, after lower-casing. */
  predicate IsKnownKey(key: string) {
    key in {"filosofos", "duracao_seg", "think_ms", "eat_ms", "variacao"}
  }

  /**
   * The key and value a line carries, or None when the line is skipped:
   * blank after trimming, a '#' comment, or not exactly two pieces around '='.
   * The key is trimmed and lower-cased, the value trimmed.
   */
  function EntryOf(line: string): (r: Option<(string, string)>)
    ensures r.Some? ==> '=' in line
    ensures r.Some? ==> LowerCase(r.value.0)
  {
    var t := Trim(line);
    if t == [] || t[0] == '#' then None
    else
      var parts := Split(t, '=');
      if |parts| != 2 then None
      else
        TrimSpec(line);
        Some((ToLower(Trim(parts[0])), Trim(parts[1])))
  }

  /** A key is stored lower-cased, a value trimmed, and neither holds '='. */
  lemma EntryShape(line: string)
    requires EntryOf(line).Some?
    ensures ToLower(EntryOf(line).value.0) == EntryOf(line).value.0
    ensures Trim(EntryOf(line).value.1) == EntryOf(line).value.1
    ensures '=' !in EntryOf(line).value.0 && '=' !in EntryOf(line).value.1
  {
    var t := Trim(line);
    var parts := Split(t, '=');
    ToLowerIdempotent(Trim(parts[0]));
    TrimIdempotent(parts[1]);
    ToLowerMeaning(Trim(parts[0]));
    SplitPiecesFree(t, '=');
    TrimSpec(parts[0]);
    TrimSpec(parts[1]);
  }

  /** What every record fromFile returns satisfies: a lower-case variant and non-negative range bounds. */
  predicate Normalised(c: Config) {
    (c.variacao.None? || LowerCase(c.variacao.value)) &&
    0 <= c.thinkMinMs && 0 <= c.thinkMaxMs && 0 <= c.eatMinMs && 0 <= c.eatMaxMs
  }

  /**
   * Applies one recognised or unrecognised key to the record (the switch of
   * fromFile). An unknown key changes nothing; only the four numeric keys
   * can raise; a normalised record stays normalised.
   */
  function ApplyEntry(c: Config, key: string, value: string): (r: Result<Config, ConfigError>)
    ensures !IsKnownKey(key) ==> r == Ok(c)
    ensures r.Err? ==> IsKnownKey(key) && key != "variacao"
    ensures Normalised(c) && r.Ok? ==> Normalised(r.value)
  {
    if key == "filosofos" then
      var n :- ParseField(value);
      Ok(c.(filosofos := n))
    else if key == "duracao_seg" then
      var d :- ParseField(value);
      Ok(c.(duracaoSeg := d))
    else if key == "think_ms" then
      var range :- ParseRange(value);
      Ok(c.(thinkMinMs := range.0, thinkMaxMs := range.1))
    else if key == "eat_ms" then
      var range :- ParseRange(value);
      Ok(c.(eatMinMs := range.0, eatMaxMs := range.1))
    else if key == "variacao" then
      Ok(c.(variacao := Some(ToLower(value))))
    else
      Ok(c)
  }

  /** One iteration of the read loop. */
  function ApplyLine(c: Config, line: string): (r: Result<Config, ConfigError>)
  {
    match EntryOf(line)
    case None => Ok(c)
    case Some(entry) => ApplyEntry(c, entry.0, entry.1)
  }

  /** The whole read loop, as a fold over the lines; the first exception ends it. */
  function Parse(lines: seq<string>): (r: Result<Config, ConfigError>)
    ensures r.Ok? ==> Normalised(r.value)
    decreases |lines|
  {
    if lines == [] then Ok(Default)
    else
      var c :- Parse(lines[..|lines| - 1]);
      ApplyLine(c, lines[|lines| - 1])
  }

  /** Config.fromFile over the lines of the file. */
  method FromLines(lines: seq<string>) returns (r: Result<Config, ConfigError>)
    ensures r == Parse(lines)
  {
    var c := Default;
    var i := 0;
    while i < |lines|
      invariant 0 <= i <= |lines|
      invariant Parse(lines[..i]) == Ok(c)
    {
      assert lines[..i + 1] == lines[..i] + [lines[i]];
      ParseSnoc(lines[..i], lines[i]);
      var step := ApplyLine(c, lines[i]);
      if step.Err? {
        ErrorEndsParse(lines, i + 1);
        return step;
      }
      c := step.value;
      i := i + 1;
    }
    assert lines[..|lines|] == lines;
    return Ok(c);
  }

  /** Reading one more line at the end continues from the record the earlier lines produced. */
  lemma ParseSnoc(lines: seq<string>, line: string)
    ensures Parse(lines + [line]) ==
      if Parse(lines).Err? then Parse(lines) else ApplyLine(Parse(lines).value, line)
  {
    assert (lines + [line])[..|lines|] == lines;
  }

  /** Once a prefix of the lines raises an exception, no later line is read. */
  lemma {:induction false} ErrorEndsParse(lines: seq<string>, i: nat)
    requires i <= |lines| && Parse(lines[..i]).Err?
    ensures Parse(lines) == Parse(lines[..i])
    decreases |lines| - i
  {
    if i == |lines| {
      assert lines[..i] == lines;
    } else {
      assert lines[..i + 1][..i] == lines[..i];
      ErrorEndsParse(lines, i + 1);
    }
  }

  // ------------------------------------------------------ which lines count

  /** A comment, a '#' after any leading blanks, is skipped, whatever follows it. */
  lemma CommentSkipped(line: string, blanks: string, rest: string)
    requires line == blanks + "#" + rest
    requires forall i :: 0 <= i < |blanks| ==> IsTrimmable(blanks[i])
    ensures EntryOf(line) == None
  {
    TrimSpec(line);
    assert line[|blanks|] == '#';
    var i := |line| - |TrimStart(line)|;
    assert i == |blanks|;
    assert Trim(line)[0] == '#';
  }

  /** A line with no '=' at all is skipped. */
  lemma LineWithoutSeparatorSkipped(line: string)
    requires '=' !in line
    ensures EntryOf(line) == None
  {
    TrimSpec(line);
  }

  /** "key=" is skipped: the empty piece after '=' is dropped by split, leaving fewer than two parts. */
  lemma EmptyValueSkipped(line: string, k: string)
    requires Trim(line) == k + "=" && '=' !in k
    ensures EntryOf(line) == None
  {
    SplitTrailingSep(k, '=');
  }

  /** "a=b=d" is skipped: it splits into three parts. */
  lemma ExtraSeparatorSkipped(line: string, a: string, b: string, d: string)
    requires Trim(line) == a + "=" + b + "=" + d
    requires '=' !in a && '=' !in b && '=' !in d && d != []
    ensures EntryOf(line) == None
  {
    SplitTriple(a, b, d, '=');
  }

  /**
   * "k=v=" is not skipped: split drops the trailing empty piece, leaving
   * the two parts k and v.
   */
  lemma TrailingSeparatorIgnored(line: string, k: string, v: string)
    requires Trim(line) == k + "=" + v + "="
    requires '=' !in k && '=' !in v && v != []
    requires k == [] || k[0] != '#'
    ensures EntryOf(line) == Some((ToLower(Trim(k)), Trim(v)))
  {
    var t := Trim(line);
    assert t[0] != '#' by {
      if k == [] { assert t[0] == '='; } else { assert t[0] == k[0]; }
    }
    var xs: seq<string> := [k, v, []];
    assert Join(xs, '=') == t by {
      assert xs[1..] == [v, []];
      assert xs[1..][1..] == [[]];
      assert Join([v, []], '=') == v + ['='] + [];
      assert Join(xs, '=') == k + ['='] + (v + ['='] + []);
    }
    PiecesOfJoin(xs, '=');
    assert t[|k|] == '=';
    assert DropTrailingEmpty(xs) == [k, v] by {
      assert xs[..2] == [k, v];
    }
    assert Split(t, '=') == [k, v];
  }

  /**
   * A line "k=v" that is not a comment carries the key k, trimmed and
   * lower-cased, and the value v, trimmed: keys match case-insensitively.
   */
  lemma KeyValueLine(line: string, k: string, v: string)
    requires Trim(line) == k + "=" + v
    requires '=' !in k && '=' !in v && v != []
    requires k == [] || k[0] != '#'
    ensures EntryOf(line) == Some((ToLower(Trim(k)), Trim(v)))
  {
    var t := Trim(line);
    assert t[0] != '#' by {
      if k == [] { assert t[0] == '='; } else { assert t[0] == k[0]; }
    }
    SplitPair(k, v, '=');
    assert Split(t, '=') == [k, v];
  }

  // ------------------------------------------------- what an entry changes

  /** The fields that the key `key` assigns are equal in a and b. */
  predicate SameFieldsFor(key: string, a: Config, b: Config) {
    if key == "filosofos" then a.filosofos == b.filosofos
    else if key == "duracao_seg" then a.duracaoSeg == b.duracaoSeg
    else if key == "think_ms" then a.thinkMinMs == b.thinkMinMs && a.thinkMaxMs == b.thinkMaxMs
    else if key == "eat_ms" then a.eatMinMs == b.eatMinMs && a.eatMaxMs == b.eatMaxMs
    else if key == "variacao" then a.variacao == b.variacao
    else true
  }

  /** An entry leaves every field that another key assigns as it was. */
  lemma EntryFrame(c: Config, k: string, v: string, key: string)
    requires k != key && ApplyEntry(c, k, v).Ok?
    ensures SameFieldsFor(key, c, ApplyEntry(c, k, v).value)
  {
  }

  /** What an entry stores, and whether it raises, does not depend on the record it is applied to. */
  lemma EntryIndependent(c1: Config, c2: Config, key: string, v: string)
    ensures ApplyEntry(c1, key, v).Ok? == ApplyEntry(c2, key, v).Ok?
    ensures ApplyEntry(c1, key, v).Ok? ==> SameFieldsFor(key, ApplyEntry(c1, key, v).value, ApplyEntry(c2, key, v).value)
    ensures ApplyEntry(c1, key, v).Err? ==> ApplyEntry(c1, key, v) == ApplyEntry(c2, key, v)
  {
  }

  /** A line that does not carry `key` leaves the fields `key` assigns as they were. */
  lemma LineFrame(c: Config, line: string, key: string)
    requires EntryOf(line).None? || EntryOf(line).value.0 != key
    requires ApplyLine(c, line).Ok?
    ensures SameFieldsFor(key, c, ApplyLine(c, line).value)
  {
    if EntryOf(line).Some? {
      var entry := EntryOf(line).value;
      EntryFrame(c, entry.0, entry.1, key);
    }
  }

  /** A second assignment to the same key overwrites the first. */
  lemma EntryOverwrites(c: Config, key: string, v1: string, v2: string)
    requires ApplyEntry(c, key, v1).Ok?
    ensures ApplyEntry(ApplyEntry(c, key, v1).value, key, v2) == ApplyEntry(c, key, v2)
  {
  }

  /** `filosofos` stores the `int` its value spells, negative ones included. */
  lemma PhilosophersStored(c: Config, n: int32)
    ensures ApplyEntry(c, "filosofos", ShowInt(n)) == Ok(c.(filosofos := n))
  {
    ParseShow(n);
  }

  /** `duracao_seg` stores the `int` its value spells, negative ones included. */
  lemma DurationStored(c: Config, d: int32)
    ensures ApplyEntry(c, "duracao_seg", ShowInt(d)) == Ok(c.(duracaoSeg := d))
  {
    ParseShow(d);
  }

  /** `think_ms=lo-hi` stores lo as the shortest and hi as the longest thinking time. */
  lemma ThinkRangeStored(c: Config, lo: int32, hi: int32)
    requires 0 <= lo && 0 <= hi
    ensures ApplyEntry(c, "think_ms", ShowInt(lo) + "-" + ShowInt(hi)) == Ok(c.(thinkMinMs := lo, thinkMaxMs := hi))
  {
    RangeRoundTrip(lo, hi);
  }

  /** `eat_ms=lo-hi` stores lo as the shortest and hi as the longest eating time. */
  lemma EatRangeStored(c: Config, lo: int32, hi: int32)
    requires 0 <= lo && 0 <= hi
    ensures ApplyEntry(c, "eat_ms", ShowInt(lo) + "-" + ShowInt(hi)) == Ok(c.(eatMinMs := lo, eatMaxMs := hi))
  {
    RangeRoundTrip(lo, hi);
  }

  /** `variacao` is stored lower-cased. */
  lemma VariantLowerCased(c: Config, value: string)
    ensures ApplyEntry(c, "variacao", value) == Ok(c.(variacao := Some(ToLower(value))))
    ensures forall i :: 0 <= i < |value| ==> !IsUpper(ApplyEntry(c, "variacao", value).value.variacao.value[i])
  {
  }

  /** Reading a line that does not carry `key` keeps the fields `key` assigns. */
  lemma ParseFrameStep(lines: seq<string>, line: string, key: string)
    requires OtherKey(line, key)
    requires Parse(lines + [line]).Ok?
    ensures Parse(lines).Ok?
    ensures SameFieldsFor(key, Parse(lines).value, Parse(lines + [line]).value)
  {
    ParseSnoc(lines, line);
    LineFrame(Parse(lines).value, line, key);
  }

  /** Reading a line that carries `key` sets its fields as they would be set on a fresh record. */
  lemma ParseAssignStep(lines: seq<string>, line: string, key: string, v: string)
    requires EntryOf(line) == Some((key, v))
    requires Parse(lines + [line]).Ok?
    ensures ApplyEntry(Default, key, v).Ok?
    ensures SameFieldsFor(key, Parse(lines + [line]).value, ApplyEntry(Default, key, v).value)
  {
    ParseSnoc(lines, line);
    EntryIndependent(Parse(lines).value, Default, key, v);
  }

  /** The line does not carry the key `key`. */
  predicate OtherKey(line: string, key: string) {
    EntryOf(line).None? || EntryOf(line).value.0 != key
  }

  /** Lines that do not carry `key` keep the fields `key` assigns. */
  lemma {:induction false} LaterLinesKeep(xs: seq<string>, post: seq<string>, key: string)
    requires forall j :: 0 <= j < |post| ==> OtherKey(post[j], key)
    requires Parse(xs + post).Ok?
    ensures Parse(xs).Ok?
    ensures SameFieldsFor(key, Parse(xs + post).value, Parse(xs).value)
    decreases |post|
  {
    if post == [] {
      assert xs + post == xs;
    } else {
      var post' := post[..|post| - 1];
      var last := post[|post| - 1];
      assert xs + post == (xs + post') + [last];
      assert OtherKey(last, key);
      assert forall j :: 0 <= j < |post'| ==> post'[j] == post[j];
      ParseFrameStep(xs + post', last, key);
      LaterLinesKeep(xs, post', key);
    }
  }

  /**
   * The last line carrying a key decides that key's fields: whatever came
   * before it, and whatever lines without that key follow it.
   */
  lemma LastAssignmentWins(pre: seq<string>, line: string, post: seq<string>, key: string, v: string)
    requires EntryOf(line) == Some((key, v))
    requires forall j :: 0 <= j < |post| ==> OtherKey(post[j], key)
    requires Parse(pre + [line] + post).Ok?
    ensures ApplyEntry(Default, key, v).Ok?
    ensures SameFieldsFor(key, Parse(pre + [line] + post).value, ApplyEntry(Default, key, v).value)
  {
    LaterLinesKeep(pre + [line], post, key);
    ParseAssignStep(pre, line, key, v);
  }
}
