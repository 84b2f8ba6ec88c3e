/** The seedfile directive: a path or pattern, a size, and options, made into seeded files. */
module SeedConfig {
  import opened MachineInts
  import opened Decimal
  import opened BlackholeFS
  import opened N = Namespace

  // ---------------------------------------------------------------- the words of the directive

  function Factor(c: char): nat {
    if c == 'k' || c == 'K' then 0x400
    else if c == 'm' || c == 'M' then 0x10_0000
    else if c == 'g' || c == 'G' then 0x4000_0000
    else if c == 't' || c == 'T' then 0x100_0000_0000
    else 0
  }

  /** A number with an optional binary suffix; the product wraps, and text after the suffix is not looked at. */
  function ParseSize(word: string): Option<u64> {
    var n := Strtoull(word);
    if n.used == 0 || n.outOfRange then None
    else if n.used == |word| then Some(n.value)
    else
      var factor := Factor(word[n.used]);
      if factor == 0 then None else Some(U64(n.value * factor))
  }

  function ParseCount(word: string): Option<u64> {
    var n := Strtoull(word);
    if n.used == 0 || n.used != |word| || n.outOfRange || n.value == 0 then None else Some(n.value)
  }

  datatype Options = Options(count: u64, readtype: string)

  const COUNT_KEY: string := "count="
  const TYPE_KEY: string := "type="

  /** One option word; a later one of its kind overrides, an unknown one is skipped. */
  function ApplyOption(o: Options, word: string): Option<Options> {
    if COUNT_KEY <= word then
      var n := ParseCount(word[|COUNT_KEY|..]);
      if n.None? then None else Some(o.(count := n.value))
    else if TYPE_KEY <= word then
      var t := word[|TYPE_KEY|..];
      if t != "zeros" && t != "random" then None else Some(o.(readtype := t))
    else Some(o)
  }

  function ParseOptions(words: seq<string>): Option<Options> {
    if words == [] then Some(Options(1, "zeros"))
    else
      var before := ParseOptions(words[..|words| - 1]);
      if before.None? then None else ApplyOption(before.value, words[|words| - 1])
  }

  // ---------------------------------------------------------------- patterns

  /** Text around one integer conversion: "%d" or "%0Wd". */
  datatype Pattern = Pattern(before: string, width: nat, after: string)

  /** Whatever int it prints, the length fits an int too; snprintf fails where it would not. */
  predicate Printable(p: Pattern) {
    |p.before| + (if p.width > 11 then p.width else 11) + |p.after| < TWO31
  }

  /** The path's pattern, if it has exactly one conversion of those two kinds and can be printed. */
  function ParsePattern(path: string): (r: Option<Pattern>)
    ensures r.Some? ==> Printable(r.value)
  {
    var i := FirstPercent(path);
    if i == |path| then None
    else
      match ParseConversion(path[i + 1..])
      case None => None
      case Some((width, after)) =>
        var p := Pattern(path[..i], width, after);
        if '%' in after || !Printable(p) then None else Some(p)
  }

  /** After the percent sign: an optional zero-led width, and 'd'. The width, and the text after. */
  function ParseConversion(spec: string): Option<(nat, string)> {
    var n := DigitCount(spec);
    if n < |spec| && spec[n] == 'd' && (n > 0 ==> spec[0] == '0') && Number(spec[..n]) < TWO31
    then Some((Number(spec[..n]), spec[n + 1..]))
    else None
  }

  function FirstPercent(s: string): (i: nat)
    ensures i <= |s| && (i < |s| <==> '%' in s)
  {
    if s == [] || s[0] == '%' then 0 else FirstPercent(s[1..]) + 1
  }

  /** What snprintf makes of the pattern for the i-th file; the index is narrowed to an int. */
  function Expand(p: Pattern, i: nat): string {
    p.before + Print(S32(i), p.width) + p.after
  }

  lemma ExpansionFitsInt(p: Pattern, i: nat)
    requires Printable(p)
    ensures |Expand(p, i)| < TWO31
  {
    IntLength(S32(i), p.width);
  }

  const BUFFER_SIZE: nat := 4096

  predicate Fits(p: Pattern, i: nat) {
    |Expand(p, i)| < BUFFER_SIZE
  }

  /** The first of the files i..count whose path does not fit the buffer, or count. */
  function FirstTooLong(p: Pattern, i: nat, count: nat): (n: nat)
    requires i <= count
    ensures i <= n <= count
    ensures forall j :: i <= j < n ==> Fits(p, j)
    ensures n < count ==> !Fits(p, n)
    decreases count - i
  {
    if i == count || !Fits(p, i) then i else FirstTooLong(p, i + 1, count)
  }

  /** The namespace after the first n files of a pattern have been seeded. */
  function SeedFirst(fs: Fs, p: Pattern, size: u64, readtype: string, n: nat): Fs {
    if n == 0 then fs else SeedFile(SeedFirst(fs, p, size, readtype, n - 1), Expand(p, n - 1), size, readtype)
  }

  // ---------------------------------------------------------------- the directive

  /**
   Of printf's conversions only one %d or %0Wd is modelled, and only where its output is not longer
   than an int can say; and only a count above 1 uses any.
   */
  predicate Supported(words: seq<string>) {
    |words| >= 2 && '%' in words[0] && ParseOptions(words[2..]).Some? && ParseOptions(words[2..]).value.count != 1 ==>
      ParsePattern(words[0]).Some?
  }

  /** What the directive does to the namespace, and whether it is accepted. */
  function Directive(fs: Fs, words: seq<string>): (Fs, bool)
    requires Supported(words)
  {
    if |words| < 2 then (fs, false)
    else
      var size, options := ParseSize(words[1]), ParseOptions(words[2..]);
      if size.None? || options.None? then (fs, false)
      else
        var Options(count, readtype) := options.value;
        if count == 1 then (SeedFile(fs, words[0], size.value, readtype), true)
        else if '%' !in words[0] then (fs, false)
        else
          var p := ParsePattern(words[0]).value;
          var n := FirstTooLong(p, 0, count);
          (SeedFirst(fs, p, size.value, readtype, n), n == count)
  }

  method CfgSeedfile(fs: BlackholeFS, words: seq<string>) returns (ok: bool)
    requires fs.Valid() && Supported(words)
    modifies fs
    ensures fs.Valid()
    ensures (fs.Value(), ok) == Directive(old(fs.Value()), words)
  {
    if |words| < 2 {
      return false;
    }
    var path := words[0];
    var parsed := ParseSize(words[1]);
    if parsed.None? {
      return false;
    }
    var size := parsed.value;
    var options := ReadOptions(words[2..]);
    if options.None? {
      return false;
    }
    var count, readtype := options.value.count, options.value.readtype;
    if count > 1 && '%' !in path {
      return false;
    }
    if count == 1 {
      fs.Seed(path, size, readtype);
      ok := true;
    } else {
      ok := SeedAll(fs, ParsePattern(path).value, size, readtype, count);
    }
  }

  /** The loop over the option words. */
  method ReadOptions(words: seq<string>) returns (r: Option<Options>)
    ensures r == ParseOptions(words)
    ensures r.Some? ==> r.value.count >= 1
  {
    var count: u64, readtype := 1, "zeros";
    for i := 0 to |words|
      invariant ParseOptions(words[..i]) == Some(Options(count, readtype)) && count >= 1
    {
      var tok := words[i];
      assert words[..i + 1][..i] == words[..i];
      if ApplyOption(Options(count, readtype), tok).None? {
        RejectedStays(words, i + 1);
      }
      if COUNT_KEY <= tok {
        var n := Strtoull(tok[|COUNT_KEY|..]);
        if n.used == 0 || n.used != |tok[|COUNT_KEY|..]| || n.outOfRange || n.value == 0 {
          return None;
        }
        count := n.value;
      } else if TYPE_KEY <= tok {
        var t := tok[|TYPE_KEY|..];
        if t != "zeros" && t != "random" {
          return None;
        }
        readtype := t;
      }
    }
    assert words[..|words|] == words;
    r := Some(Options(count, readtype));
  }

  /** The loop over the files; it stops at the first path that is too long. */
  method SeedAll(fs: BlackholeFS, p: Pattern, size: u64, readtype: string, count: u64) returns (ok: bool)
    requires fs.Valid() && Printable(p)
    modifies fs
    ensures fs.Valid()
    ensures var n := FirstTooLong(p, 0, count);
            fs.Value() == SeedFirst(old(fs.Value()), p, size, readtype, n) && ok == (n == count)
  {
    ghost var before, n := fs.Value(), FirstTooLong(p, 0, count);
    var i := 0;
    while i < count
      invariant 0 <= i <= n
      invariant fs.Valid() && fs.Value() == SeedFirst(before, p, size, readtype, i)
    {
      var buf := Expand(p, i);
      ExpansionFitsInt(p, i);
      var printed: s32 := |buf|;
      if printed >= BUFFER_SIZE {
        assert !Fits(p, i) && i == n;
        return false;
      }
      assert Fits(p, i);
      fs.Seed(buf, size, readtype);
      i := i + 1;
    }
    ok := true;
  }

  lemma {:induction false} RejectedStays(words: seq<string>, i: nat)
    requires i <= |words| && ParseOptions(words[..i]) == None
    ensures ParseOptions(words) == None
    decreases |words|
  {
    if i == |words| {
      assert words[..i] == words;
    } else {
      var front := words[..|words| - 1];
      assert front[..i] == words[..i];
      RejectedStays(front, i);
    }
  }

  // ---------------------------------------------------------------- what it amounts to

  /** The suffixes are the binary powers, in either case. */
  lemma SuffixFactors()
    ensures Factor('K') == Factor('k') == Pow2(10) && Factor('M') == Factor('m') == Pow2(20)
    ensures Factor('G') == Factor('g') == Pow2(30) && Factor('T') == Factor('t') == Pow2(40)
    ensures forall c :: Factor(c) > 0 ==> c in "kKmMgGtT"
  {
    assert Pow2(10) == 0x400;
    Pow2Add(10, 10);
    Pow2Add(20, 10);
    Pow2Add(20, 20);
  }

  /** Each option, written out, is read as meant, whatever was read before. */
  lemma OptionsRoundTrip(o: Options, n: u64, readtype: string)
    requires n > 0 && readtype in {"zeros", "random"}
    ensures ApplyOption(o, COUNT_KEY + Digits(n)) == Some(o.(count := n))
    ensures ApplyOption(o, TYPE_KEY + readtype) == Some(o.(readtype := readtype))
  {
    var word := COUNT_KEY + Digits(n);
    assert word[|COUNT_KEY|..] == Digits(n) == Digits(n) + [];
    StrtoullOfDigits(n, []);
    var typed := TYPE_KEY + readtype;
    assert typed[|TYPE_KEY|..] == readtype;
    assert typed[0] == 't' && COUNT_KEY[0] == 'c';
  }

  /** The two kinds of option do not depend on their order. */
  lemma OptionsInEitherOrder(n: u64, readtype: string)
    requires n > 0 && readtype in {"zeros", "random"}
    ensures var (c, t) := (COUNT_KEY + Digits(n), TYPE_KEY + readtype);
            ParseOptions([c, t]) == ParseOptions([t, c]) == Some(Options(n, readtype))
  {
    var c, t := COUNT_KEY + Digits(n), TYPE_KEY + readtype;
    OptionsRoundTrip(Options(1, "zeros"), n, readtype);
    OptionsRoundTrip(Options(n, "zeros"), n, readtype);
    OptionsRoundTrip(Options(1, readtype), n, readtype);
    assert ParseOptions([]) == Some(Options(1, "zeros"));
    TwoOptions(c, t);
    TwoOptions(t, c);
  }

  lemma OneOption(word: string)
    ensures ParseOptions([word]) == ApplyOption(Options(1, "zeros"), word)
  {
    assert [word][..0] == [];
    assert ParseOptions([]) == Some(Options(1, "zeros"));
  }

  lemma TwoOptions(a: string, b: string)
    ensures ParseOptions([a, b]) ==
            match ApplyOption(Options(1, "zeros"), a) case None => None case Some(o) => ApplyOption(o, b)
  {
    assert [a, b][..1] == [a] && [a][..0] == [];
    assert ParseOptions([]) == Some(Options(1, "zeros"));
    assert ParseOptions([a]) == ApplyOption(Options(1, "zeros"), a);
  }

  lemma {:induction false} FirstPercentIs(before: string, rest: string)
    requires '%' !in before
    ensures FirstPercent(before + rest) == |before| + FirstPercent(rest)
  {
    if before == [] {
      assert before + rest == rest;
    } else {
      assert (before + rest)[1..] == before[1..] + rest;
      FirstPercentIs(before[1..], rest);
    }
  }

  lemma ConversionRoundTrip(width: nat, after: string)
    requires width < TWO31
    ensures ParseConversion("0" + Digits(width) + "d" + after) == Some((width, after))
  {
    ZeroLed(width);
    ConversionOf("0" + Digits(width), after);
  }

  lemma ZeroLed(width: nat)
    ensures AllDigits("0" + Digits(width)) && Number("0" + Digits(width)) == width
  {
    assert "0" + Digits(width) == Zeros(1) + Digits(width);
    LeadingZeros(1, Digits(width));
    NumberOfDigits(width);
  }

  lemma ConversionOf(digits: string, after: string)
    requires AllDigits(digits) && digits != [] && digits[0] == '0' && Number(digits) < TWO31
    ensures ParseConversion(digits + "d" + after) == Some((Number(digits), after))
  {
    var spec := digits + "d" + after;
    DigitCountOf(digits, "d" + after);
    assert spec == digits + ("d" + after);
    assert spec[..|digits|] == digits && spec[|digits| + 1..] == after;
  }

  /** The pattern written out. */
  function PatternText(p: Pattern): string {
    p.before + ("%" + ("0" + Digits(p.width) + "d" + p.after))
  }

  lemma PatternOf(p: Pattern, spec: string)
    requires '%' !in p.before && '%' !in p.after && Printable(p)
    requires ParseConversion(spec) == Some((p.width, p.after))
    ensures ParsePattern(p.before + ("%" + spec)) == Some(p)
  {
    var path := p.before + ("%" + spec);
    FirstPercentIs(p.before, "%" + spec);
    assert path[|p.before| + 1..] == spec && path[..|p.before|] == p.before;
  }

  /** A pattern written out is recognised: its width, and the text on both sides. */
  lemma PatternRoundTrip(p: Pattern)
    requires '%' !in p.before && '%' !in p.after && Printable(p)
    ensures ParsePattern(PatternText(p)) == Some(p)
  {
    ConversionRoundTrip(p.width, p.after);
    PatternOf(p, "0" + Digits(p.width) + "d" + p.after);
  }

  /** So is one without a width. */
  lemma PlainPattern(p: Pattern)
    requires '%' !in p.before && '%' !in p.after && Printable(p) && p.width == 0
    ensures ParsePattern(p.before + ("%d" + p.after)) == Some(p)
  {
    var spec := "d" + p.after;
    assert DigitCount(spec) == 0 && spec[1..] == p.after;
    PatternOf(p, spec);
    assert "%" + spec == "%d" + p.after;
  }

  /** A size written as a plain number, with or without a suffix, is that many bytes, modulo 2^64. */
  lemma SizeRoundTrip(n: u64, suffix: char)
    requires Factor(suffix) > 0
    ensures ParseSize(Digits(n)) == Some(n)
    ensures ParseSize(Digits(n) + [suffix]) == Some(U64(n * Factor(suffix)))
  {
    assert ParseSize(Digits(n)) == Some(n) by {
      StrtoullOfDigits(n, []);
      assert Digits(n) + [] == Digits(n);
    }
    StrtoullOfDigits(n, [suffix]);
    assert (Digits(n) + [suffix])[|Digits(n)|] == suffix;
  }

  /** Two files of a pattern get the same path exactly when their indices are the same int. */
  lemma ExpandInjective(p: Pattern, i: nat, j: nat)
    ensures Expand(p, i) == Expand(p, j) <==> S32(i) == S32(j)
  {
    var a, b := Print(S32(i), p.width), Print(S32(j), p.width);
    if Expand(p, i) == Expand(p, j) {
      assert |a| == |b|;
      assert a == Expand(p, i)[|p.before|..|p.before| + |a|] == b;
      ParsePrint(S32(i), p.width);
      ParsePrint(S32(j), p.width);
    }
  }

  /** What snprintf writes: the text around, and between it the index in decimal, padded with zeros to the width. */
  lemma ExpansionIs(p: Pattern, i: nat) returns (digits: string)
    requires i < TWO31
    ensures Expand(p, i) == p.before + digits + p.after
    ensures AllDigits(digits) && Number(digits) == i && |digits| >= p.width
    ensures |digits| > p.width ==> digits == Digits(i)
  {
    digits := Padded(Digits(i), p.width);
    assert S32(i) == i && Print(i, p.width) == digits;
    PaddedNumber(i, p.width);
    PaddedLength(Digits(i), p.width);
  }

  lemma PaddedLength(s: string, width: nat)
    ensures |Padded(s, width)| >= width && (|Padded(s, width)| > width ==> Padded(s, width) == s)
  {
    assert Zeros(0) == [];
  }

  /** All paths of a directive are different if and only if there are at most 2^32 of them. */
  lemma PathsDistinct(p: Pattern, count: nat)
    ensures (forall i, j :: 0 <= i < j < count ==> Expand(p, i) != Expand(p, j)) <==> count <= TWO32
  {
    forall i, j | 0 <= i < j < count && count <= TWO32 ensures Expand(p, i) != Expand(p, j) {
      ExpandInjective(p, i, j);
    }
    if count > TWO32 {
      ExpandInjective(p, 0, TWO32);
      assert Expand(p, 0) == Expand(p, TWO32);
    }
  }

  /** The n new records: the size and kind asked for, numbered on from the last number given out. */
  lemma {:induction false} SeededRecords(fs: Fs, p: Pattern, size: u64, readtype: string, n: nat)
    ensures var r := SeedFirst(fs, p, size, readtype, n);
            && |r.heap| == |fs.heap| + n && r.heap[..|fs.heap|] == fs.heap
            && r.fdLast == U64(fs.fdLast + n)
            && forall j :: |fs.heap| <= j < |r.heap| ==>
                 r.heap[j] == SeededStub(size, readtype, U64(fs.fdLast + 1 + (j - |fs.heap|)))
  {
    if n > 0 {
      SeededRecords(fs, p, size, readtype, n - 1);
      WrapU64(fs.fdLast + (n - 1), 1);
    } else {
      assert U64(fs.fdLast) == fs.fdLast;
    }
  }

  /** The path is one of the first n of the pattern. */
  ghost predicate Produces(p: Pattern, n: nat, path: string) {
    exists i :: 0 <= i < n && Expand(p, i) == path
  }

  lemma {:induction false} OthersUntouched(fs: Fs, p: Pattern, size: u64, readtype: string, n: nat, path: string)
    requires path in fs.files || !Produces(p, n, path)
    ensures GetStub(SeedFirst(fs, p, size, readtype, n), path) == GetStub(fs, path)
  {
    if n > 0 {
      assert Produces(p, n - 1, path) ==> Produces(p, n, path);
      assert path == Expand(p, n - 1) ==> Produces(p, n, path);
      OthersUntouched(fs, p, size, readtype, n - 1, path);
    }
  }

  lemma FirstOfItsPath(p: Pattern, i: nat)
    requires i < TWO32
    ensures !Produces(p, i, Expand(p, i))
  {
    forall j | 0 <= j < i ensures Expand(p, j) != Expand(p, i) {
      ExpandInjective(p, j, i);
    }
  }

  lemma {:induction false} BindingStays(fs: Fs, p: Pattern, size: u64, readtype: string, m: nat, n: nat, path: string)
    requires m <= n && path in SeedFirst(fs, p, size, readtype, m).files
    ensures GetStub(SeedFirst(fs, p, size, readtype, n), path) == GetStub(SeedFirst(fs, p, size, readtype, m), path)
  {
    if m < n {
      BindingStays(fs, p, size, readtype, m, n - 1, path);
    }
  }

  lemma NewFileBound(fs: Fs, p: Pattern, size: u64, readtype: string, n: nat, i: nat)
    requires i < n && i < TWO32 && Expand(p, i) !in fs.files
    ensures GetStub(SeedFirst(fs, p, size, readtype, n), Expand(p, i)) == Some(|fs.heap| + i)
  {
    var path := Expand(p, i);
    SeededRecords(fs, p, size, readtype, i);
    FirstOfItsPath(p, i);
    OthersUntouched(fs, p, size, readtype, i, path);
    assert GetStub(SeedFirst(fs, p, size, readtype, i + 1), path) == Some(|fs.heap| + i);
    BindingStays(fs, p, size, readtype, i + 1, n, path);
  }

  /** The paths of a pattern that were free each name the record made for their index. */
  lemma PatternIsSeeded(fs: Fs, p: Pattern, size: u64, readtype: string, count: nat, i: nat)
    requires i < count && i < TWO32 && Expand(p, i) !in fs.files
    ensures var r := SeedFirst(fs, p, size, readtype, count);
            && |r.heap| == |fs.heap| + count
            && GetStub(r, Expand(p, i)) == Some(|fs.heap| + i)
            && r.heap[|fs.heap| + i] == SeededStub(size, readtype, U64(fs.fdLast + 1 + i))
  {
    SeededRecords(fs, p, size, readtype, count);
    NewFileBound(fs, p, size, readtype, count, i);
  }

  /** Paths that were taken keep their record untouched; a path of no index is not created. */
  lemma OthersAreKept(fs: Fs, p: Pattern, size: u64, readtype: string, count: nat, path: string)
    requires path in fs.files ==> fs.files[path] < |fs.heap|
    requires path in fs.files || !Produces(p, count, path)
    ensures var r := SeedFirst(fs, p, size, readtype, count);
            && GetStub(r, path) == GetStub(fs, path)
            && |r.heap| >= |fs.heap|
            && (path in fs.files ==> r.heap[fs.files[path]] == fs.heap[fs.files[path]])
  {
    var r := SeedFirst(fs, p, size, readtype, count);
    SeededRecords(fs, p, size, readtype, count);
    OthersUntouched(fs, p, size, readtype, count, path);
    if path in fs.files {
      assert r.heap[..|fs.heap|][fs.files[path]] == r.heap[fs.files[path]];
    }
  }

  // ---------------------------------------------------------------- from words to files

  /** A size as it is written: a number; and a suffix or none, after whose letter anything may follow. */
  ghost predicate SizeIs(word: string, size: u64) {
    exists n: u64, suffix: string :: SizeWritten(word, n, suffix, size)
  }

  predicate SizeWritten(word: string, n: u64, suffix: string, size: u64) {
    && word == Digits(n) + suffix
    && (suffix == "" || suffix[0] in "kKmMgGtT")
    && size == (if suffix == "" then n
                else if suffix[0] in "kK" then n * 0x400 % TWO64
                else if suffix[0] in "mM" then n * 0x10_0000 % TWO64
                else if suffix[0] in "gG" then n * 0x4000_0000 % TWO64
                else n * 0x100_0000_0000 % TWO64)
  }

  lemma SizeIsParsed(word: string, size: u64)
    requires SizeIs(word, size)
    ensures ParseSize(word) == Some(size)
  {
    var n: u64, suffix :| SizeWritten(word, n, suffix, size);
    if suffix != "" {
      assert word[|Digits(n)|] == suffix[0] && !IsDigit(suffix[0]);
    }
    StrtoullOfDigits(n, suffix);
    assert suffix == "" ==> word == Digits(n);
  }

  /** Option words that ask for n files of this kind. */
  predicate ManyFiles(options: seq<string>, n: u64, readtype: string) {
    || (options == ["count=" + Digits(n)] && readtype == "zeros")
    || (readtype in {"zeros", "random"}
        && options in [["count=" + Digits(n), "type=" + readtype], ["type=" + readtype, "count=" + Digits(n)]])
  }

  lemma ManyFilesAre(options: seq<string>, n: u64, readtype: string)
    requires n > 0 && ManyFiles(options, n, readtype)
    ensures ParseOptions(options) == Some(Options(n, readtype))
  {
    if readtype in {"zeros", "random"} {
      OptionsInEitherOrder(n, readtype);
    }
    OneOption("count=" + Digits(n));
    OptionsRoundTrip(Options(1, "zeros"), n, "zeros");
  }

  /** The words of a directive for `count` files. */
  ghost predicate WordsFor(words: seq<string>, p: Pattern, size: u64, count: u64, readtype: string) {
    && |words| >= 2 && SizeIs(words[1], size) && ManyFiles(words[2..], count, readtype)
    && (words[0] == PatternText(p) || (p.width == 0 && words[0] == p.before + ("%d" + p.after)))
  }

  lemma DirectiveIs(fs: Fs, words: seq<string>, p: Pattern, size: u64, count: u64, readtype: string)
    requires '%' !in p.before && '%' !in p.after && Printable(p)
    requires count > 1 && WordsFor(words, p, size, count, readtype)
    ensures Supported(words)
    ensures var n := FirstTooLong(p, 0, count);
            Directive(fs, words) == (SeedFirst(fs, p, size, readtype, n), n == count)
  {
    if words[0] == PatternText(p) {
      PatternRoundTrip(p);
    } else {
      PlainPattern(p);
    }
    assert words[0][|p.before|] == '%';
    SizeIsParsed(words[1], size);
    ManyFilesAre(words[2..], count, readtype);
  }

  /**
   The directive, from its words to the namespace. It is accepted exactly if every path fits the buffer. The
   paths before the first that does not are all different, up to 2^32 of them; each that was free names
   a new record of the size and kind asked for; every path that was taken, and every other path, is as before.
   */
  lemma DirectiveSeeds(fs: Fs, words: seq<string>, p: Pattern, size: u64, count: u64, readtype: string)
    requires forall path :: path in fs.files ==> fs.files[path] < |fs.heap|
    requires '%' !in p.before && '%' !in p.after && Printable(p)
    requires count > 1 && WordsFor(words, p, size, count, readtype)
    ensures Supported(words)
    ensures Directive(fs, words).1 <==> forall i :: 0 <= i < count ==> Fits(p, i)
    ensures forall i :: 0 <= i < count ==> (Fits(p, i) <==> |Expand(p, i)| < 4096)
    ensures var n, fs' := FirstTooLong(p, 0, count), Directive(fs, words).0;
            && |fs'.heap| == |fs.heap| + n
            && (n <= TWO32 <==> forall i, j :: 0 <= i < j < n ==> Expand(p, i) != Expand(p, j))
            && (forall i :: 0 <= i < n && i < TWO32 && Expand(p, i) !in fs.files ==>
                  && GetStub(fs', Expand(p, i)) == Some(|fs.heap| + i)
                  && fs'.heap[|fs.heap| + i] == SeededStub(size, readtype, U64(fs.fdLast + 1 + i)))
            && (forall path :: path in fs.files || !Produces(p, n, path) ==> GetStub(fs', path) == GetStub(fs, path))
            && (forall path :: path in fs.files ==> fs'.heap[fs.files[path]] == fs.heap[fs.files[path]])
  {
    DirectiveIs(fs, words, p, size, count, readtype);
    var n := FirstTooLong(p, 0, count);
    SeededRecords(fs, p, size, readtype, n);
    PathsDistinct(p, n);
    forall i | 0 <= i < n && i < TWO32 && Expand(p, i) !in fs.files
      ensures var fs' := SeedFirst(fs, p, size, readtype, n);
              && GetStub(fs', Expand(p, i)) == Some(|fs.heap| + i)
              && fs'.heap[|fs.heap| + i] == SeededStub(size, readtype, U64(fs.fdLast + 1 + i))
    {
      PatternIsSeeded(fs, p, size, readtype, n, i);
    }
    forall path | path in fs.files || !Produces(p, n, path)
      ensures var fs' := SeedFirst(fs, p, size, readtype, n);
              && GetStub(fs', path) == GetStub(fs, path)
              && (path in fs.files ==> fs'.heap[fs.files[path]] == fs.heap[fs.files[path]])
    {
      OthersAreKept(fs, p, size, readtype, n, path);
    }
  }

  // ---------------------------------------------------------------- one file

  /** The option words of a directive for one file of this kind. */
  predicate OneFileOptions(options: seq<string>, readtype: string) {
    || (options == [] && readtype == "zeros")
    || (options == ["count=1"] && readtype == "zeros")
    || (readtype in {"zeros", "random"}
        && options in [["type=" + readtype], ["count=1", "type=" + readtype], ["type=" + readtype, "count=1"]])
  }

  lemma OneFileOptionsAre(options: seq<string>, readtype: string)
    requires OneFileOptions(options, readtype)
    ensures ParseOptions(options) == Some(Options(1, readtype))
  {
    var count, kind := "count=1", "type=" + readtype;
    assert Digits(1) == "1";
    assert count == COUNT_KEY + Digits(1);
    assert ParseOptions([]) == Some(Options(1, "zeros"));
    OptionsRoundTrip(Options(1, "zeros"), 1, "zeros");
    OneOption(count);
    OneOption(kind);
    if readtype in {"zeros", "random"} {
      OptionsRoundTrip(Options(1, "zeros"), 1, readtype);
      OptionsInEitherOrder(1, readtype);
    }
  }

  /**
   The ordinary directive, for one file: it is accepted, whatever is in the path, and makes one record of the size
   and kind asked for with the next number for its inode. The path names it if it was free; all else is as before.
   */
  lemma OneFileIsSeeded(fs: Fs, words: seq<string>, size: u64, readtype: string)
    requires |words| >= 2 && SizeIs(words[1], size) && OneFileOptions(words[2..], readtype)
    ensures Supported(words) && Directive(fs, words).1
    ensures var fs', n := Directive(fs, words).0, (fs.fdLast + 1) % TWO64;
            && fs'.fdLast == n
            && |fs'.heap| == |fs.heap| + 1 && fs'.heap[..|fs.heap|] == fs.heap
            && var s := fs'.heap[|fs.heap|];
            && s.size == size && s.stat == Stat(1, n, S64(size)) && s.readtype == readtype && !s.isOpenWrite
            && fs'.files == if words[0] in fs.files then fs.files else fs.files[words[0] := |fs.heap|]
  {
    SizeIsParsed(words[1], size);
    OneFileOptionsAre(words[2..], readtype);
  }

  // ---------------------------------------------------------------- rejections

  /** Not a size: no number, one out of range, or a number and a suffix that is none of the four. */
  ghost predicate BadSize(word: string) {
    || ((word != [] ==> !IsDigit(word[0])) && (|word| > 1 && (word[0] == '-' || word[0] == '+') ==> !IsDigit(word[1])))
    || (exists n: nat, rest: string :: OversizeWritten(word, n, rest))
    || (exists n: u64, rest: string :: BadSuffixWritten(word, n, rest))
  }

  predicate OversizeWritten(word: string, n: nat, rest: string) {
    word == Digits(n) + rest && n >= TWO64 && (rest != [] ==> !IsDigit(rest[0]))
  }

  predicate BadSuffixWritten(word: string, n: u64, rest: string) {
    word == Digits(n) + rest && rest != [] && !IsDigit(rest[0]) && rest[0] !in "kKmMgGtT"
  }

  lemma OversizeIsNone(word: string, n: nat, rest: string)
    requires OversizeWritten(word, n, rest)
    ensures ParseSize(word) == None
  {
    StrtoullOfDigits(n, rest);
  }

  lemma BadSuffixIsNone(word: string, n: u64, rest: string)
    requires BadSuffixWritten(word, n, rest)
    ensures ParseSize(word) == None
  {
    StrtoullOfDigits(n, rest);
    assert word[|Digits(n)|] == rest[0];
    SuffixFactors();
    assert Factor(rest[0]) == 0;
  }

  lemma BadSizeIsNone(word: string)
    requires BadSize(word)
    ensures ParseSize(word) == None
  {
    if exists n: nat, rest: string :: OversizeWritten(word, n, rest) {
      var n: nat, rest :| OversizeWritten(word, n, rest);
      OversizeIsNone(word, n, rest);
    } else if exists n: u64, rest: string :: BadSuffixWritten(word, n, rest) {
      var n: u64, rest :| BadSuffixWritten(word, n, rest);
      BadSuffixIsNone(word, n, rest);
    } else {
      StrtoullOfNoNumber(word);
    }
  }

  /** Not an option: a count that is no number, zero, out of range or followed by anything; or an unknown type. */
  ghost predicate BadOption(word: string) {
    || (exists n: nat, rest: string :: BadCountWritten(word, n, rest))
    || (|word| >= 6 && word[..6] == "count="
        && (|word| > 6 ==> !IsDigit(word[6]))
        && (|word| > 7 && (word[6] == '-' || word[6] == '+') ==> !IsDigit(word[7])))
    || (|word| >= 5 && word[..5] == "type=" && word[5..] != "zeros" && word[5..] != "random")
  }

  predicate BadCountWritten(word: string, n: nat, rest: string) {
    word == "count=" + Digits(n) + rest && (rest != [] ==> !IsDigit(rest[0])) && (n == 0 || n >= TWO64 || rest != [])
  }

  lemma BadOptionIsNone(o: Options, word: string)
    requires BadOption(word)
    ensures ApplyOption(o, word) == None
  {
    if exists n: nat, rest: string :: BadCountWritten(word, n, rest) {
      var n: nat, rest :| BadCountWritten(word, n, rest);
      assert word[6..] == Digits(n) + rest;
      assert word == COUNT_KEY + (Digits(n) + rest);
      StrtoullOfDigits(n, rest);
    } else if |word| >= 6 && word[..6] == "count=" {
      assert COUNT_KEY <= word;
      StrtoullOfNoNumber(word[6..]);
    } else {
      assert word[0] == 't';
      assert !(COUNT_KEY <= word) && TYPE_KEY <= word;
    }
  }

  /** A word that is no option, wherever it stands, is skipped. */
  lemma {:induction false} UnknownOptionIgnored(before: seq<string>, word: string, after: seq<string>)
    requires !("count=" <= word) && !("type=" <= word)
    ensures ParseOptions(before + [word] + after) == ParseOptions(before + after)
    decreases |after|
  {
    if after == [] {
      assert (before + [word])[..|before|] == before;
      assert before + [word] + after == before + [word] && before + after == before;
    } else {
      var front, last := after[..|after| - 1], after[|after| - 1];
      UnknownOptionIgnored(before, word, front);
      assert (before + [word] + after)[..|before| + |after|] == before + [word] + front;
      assert (before + after)[..|before| + |after| - 1] == before + front;
    }
  }

  /** One bad option anywhere spoils them all. */
  lemma BadOptionRejects(options: seq<string>, k: nat)
    requires k < |options| && BadOption(options[k])
    ensures ParseOptions(options) == None
  {
    var front := options[..k + 1];
    assert front[..k] == options[..k];
    if ParseOptions(options[..k]).Some? {
      BadOptionIsNone(ParseOptions(options[..k]).value, options[k]);
    }
    assert ParseOptions(options[..k + 1]) == None;
    RejectedStays(options, k + 1);
  }

  /**
   When a directive is refused before anything is made: a word is missing, the size or an option is bad, or a count
   above one comes with a path that has no '%'.
   */
  lemma DirectiveRefused(fs: Fs, words: seq<string>)
    requires || |words| < 2
             || BadSize(words[1])
             || (exists k :: 2 <= k < |words| && BadOption(words[k]))
             || ('%' !in words[0] && exists n: u64, readtype: string :: n > 1 && ManyFiles(words[2..], n, readtype))
    ensures Supported(words) ==> Directive(fs, words) == (fs, false)
  {
    if |words| >= 2 {
      if BadSize(words[1]) {
        BadSizeIsNone(words[1]);
      } else if exists k :: 2 <= k < |words| && BadOption(words[k]) {
        var k :| 2 <= k < |words| && BadOption(words[k]);
        assert words[2..][k - 2] == words[k];
        BadOptionRejects(words[2..], k - 2);
      } else {
        var n: u64, readtype: string :| n > 1 && ManyFiles(words[2..], n, readtype);
        ManyFilesAre(words[2..], n, readtype);
      }
    }
  }
}
