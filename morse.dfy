/**
 * The Morse Code challenge script: the key file read into a dict, messages
 * encoded and decoded through it, a message cut into `GroupSize` segments of
 * balanced lengths, the choice of a shuffled segment order that differs from
 * the original one, and the script's own check that decoding the segments
 * gives the message back.
 */
module Morse {
  import opened Wrappers
  import opened PyStr
  import opened PyDict

  /** `GROUPSIZE`: students in a group, so segments per message. */
  const GroupSize := 4

  /*
   * The key file.
   */

  /**
   * One line of the key file: `key, val = l.split('\t')`, then
   * `val.split('\n')[0]`. Unpacking fails (a `ValueError`) unless the line
   * holds exactly one tab.
   */
  function ParseLine(l: string): (r: Result<(string, string)>)
    ensures r.Ok? <==> multiset(l)['\t'] == 1
  {
    SplitCount(l, '\t');
    var parts := Split(l, '\t');
    if |parts| != 2 then Err("ValueError: not enough or too many values to unpack")
    else Ok((parts[0], Split(parts[1], '\n')[0]))
  }

  /** A line written as `k\tv\n` reads back as the pair `(k, v)`. */
  lemma ParseLineRoundTrip(k: string, v: string)
    requires '\t' !in k && '\t' !in v && '\n' !in v
    ensures ParseLine(k + ['\t'] + (v + ['\n'])) == Ok((k, v))
  {
    SplitNoSeparator(v + ['\n'], '\t');
    SplitAtSeparator(k, '\t', v + ['\n']);
    SplitAtSeparator(v, '\n', []);
    assert v + ['\n'] + [] == v + ['\n'];
  }

  /** The dict built from `lines` in file order, or an error at the first malformed line. */
  function Load(lines: seq<string>): Result<Dict>
  {
    if lines == [] then Ok([])
    else
      var prefix := Load(lines[..|lines| - 1]);
      if prefix.Err? then prefix
      else
        var line := ParseLine(lines[|lines| - 1]);
        if line.Err? then Err(line.msg)
        else Ok(Put(prefix.value, line.value.0, line.value.1))
  }

  /** Loading succeeds exactly when every line is well formed. */
  lemma {:induction false} LoadOk(lines: seq<string>)
    ensures Load(lines).Ok? <==> forall j :: 0 <= j < |lines| ==> ParseLine(lines[j]).Ok?
  {
    if lines != [] {
      var n := |lines|;
      var prefix := lines[..n - 1];
      LoadOk(prefix);
      if Load(prefix).Err? {
        var j :| 0 <= j < n - 1 && ParseLine(prefix[j]).Err?;
        assert lines[j] == prefix[j];
      } else if ParseLine(lines[n - 1]).Ok? {
        forall j | 0 <= j < n
          ensures ParseLine(lines[j]).Ok?
        {
          if j < n - 1 {
            assert lines[j] == prefix[j];
          }
        }
      }
    }
  }

  /** Loading never repeats a key. */
  lemma {:induction false} LoadKeysUnique(lines: seq<string>)
    requires Load(lines).Ok?
    ensures KeysUnique(Load(lines).value)
  {
    if lines != [] {
      var n := |lines|;
      LoadKeysUnique(lines[..n - 1]);
      var line := ParseLine(lines[n - 1]);
      PutKeysUnique(Load(lines[..n - 1]).value, line.value.0, line.value.1);
    }
  }

  /** `import_key`: the lines' pairs, then `' '` mapped to `'/'`. */
  function KeyOf(lines: seq<string>): (r: Result<Dict>)
    ensures r.Ok? <==> forall j :: 0 <= j < |lines| ==> ParseLine(lines[j]).Ok?
    ensures r.Ok? ==> KeysUnique(r.value) && Get(r.value, " ") == Some("/")
  {
    LoadOk(lines);
    match Load(lines)
    case Err(e) => Err(e)
    case Ok(d) =>
      LoadKeysUnique(lines);
      PutKeysUnique(d, " ", "/");
      PutGet(d, " ", "/", " ");
      Ok(Put(d, " ", "/"))
  }

  /**
   * `import_key(fname)` over the file's lines: fills the dict line by line,
   * then adds the word separator.
   */
  method ImportKey(lines: seq<string>) returns (r: Result<Dict>)
    ensures r.Ok? == KeyOf(lines).Ok?
    ensures r.Ok? ==> r == KeyOf(lines)
  {
    var key: Dict := [];
    for j := 0 to |lines|
      invariant Load(lines[..j]) == Ok(key)
    {
      var parsed := ParseLine(lines[j]);
      assert lines[..j + 1][..j] == lines[..j];
      if parsed.Err? {
        return Err(parsed.msg);
      }
      key := Put(key, parsed.value.0, parsed.value.1);
    }
    assert lines[..|lines|] == lines;
    key := Put(key, " ", "/");
    return Ok(key);
  }

  /** The value of the last well-formed line whose key is `k`. */
  function LastValueFor(lines: seq<string>, k: string): Option<string>
  {
    if lines == [] then None
    else
      var line := ParseLine(lines[|lines| - 1]);
      if line.Ok? && line.value.0 == k then Some(line.value.1)
      else LastValueFor(lines[..|lines| - 1], k)
  }

  /** A key repeated in the file keeps the value of its last line. */
  lemma {:induction false} LoadGet(lines: seq<string>, k: string)
    requires Load(lines).Ok?
    ensures Get(Load(lines).value, k) == LastValueFor(lines, k)
  {
    if lines != [] {
      LoadGet(lines[..|lines| - 1], k);
      var line := ParseLine(lines[|lines| - 1]);
      PutGet(Load(lines[..|lines| - 1]).value, line.value.0, line.value.1, k);
    }
  }

  /** Every key but the space has the value of its last line; the space has `'/'`. */
  lemma KeyOfGet(lines: seq<string>, k: string)
    requires KeyOf(lines).Ok?
    ensures k == " " ==> Get(KeyOf(lines).value, k) == Some("/")
    ensures k != " " ==> Get(KeyOf(lines).value, k) == LastValueFor(lines, k)
  {
    LoadGet(lines, k);
    PutGet(Load(lines).value, " ", "/", k);
  }

  /*
   * Encoding.
   */

  /** `char.upper()` on ASCII: a lower-case letter becomes its capital, any other character stays. */
  function Upper(c: char): char
  {
    if 'a' <= c <= 'z' then (c as int - 32) as char else c
  }

  /** Upper-casing twice is upper-casing once, and a lower-case letter upper-cases as its capital does. */
  lemma UpperIdempotent(c: char)
    ensures Upper(Upper(c)) == Upper(c)
    ensures 'a' <= c <= 'z' ==> Upper(c) == Upper((c as int - 32) as char)
  {
  }

  /** `' '.join(message.split('\n'))`: every newline becomes a space. */
  function Clean(message: string): string
  {
    Join(Split(message, '\n'), ' ')
  }

  /** Cleaning turns each newline into a space and keeps every other character. */
  lemma CleanReplaces(message: string)
    ensures Clean(message) == Replace(message, '\n', ' ')
  {
    JoinSplit(message, '\n', ' ');
  }

  /** The code of `c`, looked up upper-cased. */
  function CodeOf(c: char, key: Dict): Option<string>
  {
    Get(key, [Upper(c)])
  }

  /** The codes of the characters of `s` the key translates, in order; the others are skipped. */
  function Codes(s: string, key: Dict): (r: seq<string>)
    ensures |r| <= |s|
  {
    if s == [] then []
    else
      var c := s[|s| - 1];
      Codes(s[..|s| - 1], key) + (if CodeOf(c, key).Some? then [CodeOf(c, key).value] else [])
  }

  /** The characters of `s` the key translates, upper-cased, in order. */
  function Translated(s: string, key: Dict): string
  {
    if s == [] then []
    else
      var c := s[|s| - 1];
      Translated(s[..|s| - 1], key) + (if CodeOf(c, key).Some? then [Upper(c)] else [])
  }

  /** The codes are, one for one, those of the translated characters. */
  lemma {:induction false} CodesTranslated(s: string, key: Dict)
    ensures |Codes(s, key)| == |Translated(s, key)|
    ensures forall i :: 0 <= i < |Codes(s, key)| ==> Get(key, [Translated(s, key)[i]]) == Some(Codes(s, key)[i])
  {
    if s != [] {
      CodesTranslated(s[..|s| - 1], key);
    }
  }

  /** What `encode(message, key)` returns. */
  function Encoding(message: string, key: Dict): string
  {
    Join(Codes(Clean(message), key), ' ')
  }

  /**
   * `encode(message, key)`: the codes of the translatable characters of the
   * cleaned message, joined by single spaces.
   */
  method Encode(message: string, key: Dict) returns (encoded: string)
    ensures encoded == Encoding(message, key)
  {
    var m := Join(Split(message, '\n'), ' ');
    var codes: seq<string> := [];
    for j := 0 to |m|
      invariant codes == Codes(m[..j], key)
    {
      assert m[..j + 1][..j] == m[..j];
      match Get(key, [Upper(m[j])])
      case Some(code) =>
        codes := codes + [code];
      case None =>
    }
    assert m[..|m|] == m;
    encoded := Join(codes, ' ');
  }

  /** A newline encodes exactly as a space would. */
  lemma NewlineEncodesAsSpace(message: string, i: nat, key: Dict)
    requires i < |message| && message[i] == '\n'
    ensures Encoding(message, key) == Encoding(message[i := ' '], key)
  {
    CleanReplaces(message);
    CleanReplaces(message[i := ' ']);
    assert Clean(message) == Clean(message[i := ' ']);
  }

  /** With an imported key, a lone newline encodes as the word separator `/`. */
  lemma NewlineIsWordSeparator(lines: seq<string>)
    requires KeyOf(lines).Ok?
    ensures Encoding("\n", KeyOf(lines).value) == "/"
  {
    var key := KeyOf(lines).value;
    CleanReplaces("\n");
    assert Clean("\n") == " ";
    assert Codes(" ", key) == Codes([], key) + ["/"];
  }

  /** Codes do not depend on case: characters that upper-case alike encode alike. */
  lemma {:induction false} CodesIgnoreCase(s: string, t: string, key: Dict)
    requires |s| == |t| && forall i :: 0 <= i < |s| ==> Upper(s[i]) == Upper(t[i])
    ensures Codes(s, key) == Codes(t, key)
  {
    if s != [] {
      CodesIgnoreCase(s[..|s| - 1], t[..|t| - 1], key);
    }
  }

  /** `encode` does not depend on case: messages that upper-case alike encode alike. */
  lemma EncodingIgnoresCase(m: string, m': string, key: Dict)
    requires |m| == |m'| && forall i :: 0 <= i < |m| ==> Upper(m[i]) == Upper(m'[i])
    ensures Encoding(m, key) == Encoding(m', key)
  {
    CleanReplaces(m);
    CleanReplaces(m');
    CodesIgnoreCase(Clean(m), Clean(m'), key);
  }

  /*
   * Decoding.
   */

  /** One entry per token: the key whose code the token is, or `"#"` for a token that is no code. */
  function Lookups(tokens: seq<string>, inv: Dict): seq<string>
  {
    if tokens == [] then []
    else Lookups(tokens[..|tokens| - 1], inv) + [Lookup(tokens[|tokens| - 1], inv)]
  }

  /** What one token stands for: its key in the inverted dict, or `#`. */
  function Lookup(token: string, inv: Dict): string
  {
    match Get(inv, token)
    case Some(k) => k
    case None => "#"
  }

  /** Token `i` stands for the key the inverted dict gives it, or for `#`. */
  lemma {:induction false} LookupsAt(tokens: seq<string>, inv: Dict)
    ensures |Lookups(tokens, inv)| == |tokens|
    ensures forall i :: 0 <= i < |tokens| ==> Lookups(tokens, inv)[i] == Lookup(tokens[i], inv)
  {
    if tokens != [] {
      var n := |tokens|;
      LookupsAt(tokens[..n - 1], inv);
      PrefixStep(tokens, n - 1);
      assert tokens[..n] == tokens;
    }
  }

  /** What `decode(encoded, key)` returns. */
  function Decoding(encoded: string, key: Dict): string
  {
    Concat(Lookups(Split(encoded, ' '), Invert(key)))
  }

  /**
   * `decode(encoded, key)`: inverts the key, splits the input on single
   * spaces and joins what each token stands for.
   */
  method Decode(encoded: string, key: Dict) returns (decoded: string)
    ensures decoded == Decoding(encoded, key)
  {
    var invKey := Invert(key);
    var letters := Split(encoded, ' ');
    var parts: seq<string> := [];
    for j := 0 to |letters|
      invariant parts == Lookups(letters[..j], invKey)
    {
      assert letters[..j + 1][..j] == letters[..j];
      match Get(invKey, letters[j])
      case Some(k) =>
        parts := parts + [k];
      case None =>
        parts := parts + ["#"];
    }
    assert letters[..|letters|] == letters;
    decoded := Concat(parts);
  }

  /** The key can be read backwards: no two entries share a code, and no code holds a space. */
  ghost predicate Decodable(key: Dict)
  {
    && KeysUnique(key)
    && ValuesUnique(key)
    && forall i :: 0 <= i < |key| ==> ' ' !in key[i].1
  }

  /**
   * Decoding an encoding gives back the message with newlines made spaces,
   * letters upper-cased and untranslatable characters dropped, provided
   * something in it was translatable.
   */
  lemma RoundTrip(message: string, key: Dict)
    requires Decodable(key)
    requires Translated(Clean(message), key) != []
    ensures Decoding(Encoding(message, key), key) == Translated(Clean(message), key)
  {
    var s := Clean(message);
    var codes, t := Codes(s, key), Translated(s, key);
    CodesTranslated(s, key);
    forall i | 0 <= i < |codes|
      ensures ' ' !in codes[i] && Get(Invert(key), codes[i]) == Some([t[i]])
    {
      var j :| 0 <= j < |key| && key[j] == ([t[i]], codes[i]);
      InvertInverse(key, [t[i]], codes[i]);
    }
    SplitJoin(codes, ' ');
    LookupsAt(codes, Invert(key));
    ConcatChars(Lookups(codes, Invert(key)), t);
  }

  /** The empty string is one empty token, which no code matches when no code is empty: it decodes to `#`. */
  lemma DecodingEmpty(key: Dict)
    requires forall i :: 0 <= i < |key| ==> key[i].1 != ""
    ensures Decoding("", key) == "#"
  {
    NoCodeIsEmpty(key);
    assert ["#"][..0] == [];
  }

  /** The empty token is no code, so it looks up as `#`. */
  lemma NoCodeIsEmpty(key: Dict)
    requires forall i :: 0 <= i < |key| ==> key[i].1 != ""
    ensures Lookups(Split("", ' '), Invert(key)) == ["#"]
  {
    InvertGet(key, "");
    var none := LastKeyWith(key, "");
    assert none.None?;
    assert Split("", ' ') == [""];
    LookupsAt([""], Invert(key));
  }

  /** A message with nothing translatable encodes to nothing and decodes to a lone `#`. */
  lemma UntranslatableDecodesToHash(message: string, key: Dict)
    requires forall i :: 0 <= i < |key| ==> key[i].1 != ""
    requires Translated(Clean(message), key) == []
    ensures Encoding(message, key) == ""
    ensures Decoding(Encoding(message, key), key) == "#"
  {
    CodesTranslated(Clean(message), key);
    DecodingEmpty(key);
  }

  /*
   * Segments.
   */

  function Sum(xs: seq<nat>): nat
  {
    if xs == [] then 0 else Sum(xs[..|xs| - 1]) + xs[|xs| - 1]
  }

  /**
   * The segment lengths for a message of `n` characters: `n / GroupSize`
   * each, one more for each of the first `n % GroupSize` segments.
   */
  function Lengths(n: nat): (r: seq<nat>)
    ensures |r| == GroupSize
  {
    seq(GroupSize, i requires 0 <= i < GroupSize => n / GroupSize + if i < n % GroupSize then 1 else 0)
  }

  /**
   * `segment_lengths` as `main` builds it: every entry starts at the
   * quotient, and the loop adds one to each of the first `extra_length`.
   */
  method SegmentLengths(n: nat) returns (lengths: seq<nat>)
    ensures lengths == Lengths(n)
  {
    var a := new nat[GroupSize](_ => n / GroupSize);
    var extra := n % GroupSize;
    for i := 0 to extra
      invariant forall k :: 0 <= k < GroupSize ==> a[k] == n / GroupSize + if k < i then 1 else 0
    {
      a[i] := a[i] + 1;
    }
    lengths := a[..];
  }

  /** The lengths add up to the message length. */
  lemma LengthsSum(n: nat)
    ensures Sum(Lengths(n)) == n
  {
    var r := Lengths(n);
    assert r[..1][..0] == [] && r[..2][..1] == r[..1] && r[..3][..2] == r[..2] && r[..4][..3] == r[..3] && r[..4] == r;
    assert Sum(r[..1]) == r[0];
    assert Sum(r[..2]) == r[0] + r[1];
    assert Sum(r[..3]) == r[0] + r[1] + r[2];
    assert Sum(r) == r[0] + r[1] + r[2] + r[3];
  }

  /** Any two segments differ in length by at most one, and the longer ones come first. */
  lemma LengthsBalanced(n: nat, i: nat, j: nat)
    requires i < j < GroupSize
    ensures Lengths(n)[j] <= Lengths(n)[i] <= Lengths(n)[j] + 1
  {
  }

  /** The running total of the first `i` lengths: where segment `i` starts. */
  lemma {:induction false} SumPrefix(xs: seq<nat>, i: nat, j: nat)
    requires i <= j <= |xs|
    ensures Sum(xs[..i]) <= Sum(xs[..j]) <= Sum(xs)
  {
    if j < |xs| {
      SumPrefix(xs[..|xs| - 1], i, j);
      assert xs[..|xs| - 1][..i] == xs[..i];
      assert xs[..|xs| - 1][..j] == xs[..j];
    } else if i < j {
      assert xs[..j] == xs;
      SumPrefix(xs[..|xs| - 1], i, j - 1);
      assert xs[..|xs| - 1][..i] == xs[..i];
      assert xs[..|xs| - 1][..j - 1] == xs[..|xs| - 1];
    } else {
      assert xs[..i] == xs;
    }
  }

  /** `message[sum(lengths[:i]):sum(lengths[:i+1])]` for each `i`. */
  function Slices(message: string, lengths: seq<nat>): (r: seq<string>)
    requires Sum(lengths) == |message|
    ensures |r| == |lengths|
  {
    seq(|lengths|, i requires 0 <= i < |lengths| =>
      SumPrefix(lengths, i, i + 1);
      message[Sum(lengths[..i])..Sum(lengths[..i + 1])])
  }

  /** `segments`: the message cut at the running totals of `Lengths`. */
  function Segments(message: string): (r: seq<string>)
    ensures |r| == GroupSize
  {
    LengthsSum(|message|);
    Slices(message, Lengths(|message|))
  }

  /** Each segment has the length chosen for it. */
  lemma SegmentLength(message: string, i: nat)
    requires i < GroupSize
    ensures |Segments(message)[i]| == Lengths(|message|)[i]
  {
    var lengths := Lengths(|message|);
    LengthsSum(|message|);
    SumPrefix(lengths, i, i + 1);
    assert lengths[..i + 1] == lengths[..i] + [lengths[i]];
  }

  /** The slices, joined, give the first `k` running totals' worth of the message. */
  lemma {:induction false} SlicesPrefix(message: string, lengths: seq<nat>, k: nat)
    requires Sum(lengths) == |message| && k <= |lengths|
    ensures Sum(lengths[..k]) <= |message|
    ensures Concat(Slices(message, lengths)[..k]) == message[..Sum(lengths[..k])]
  {
    SumPrefix(lengths, k, k);
    if k == 0 {
      assert Slices(message, lengths)[..0] == [];
    } else {
      SlicesPrefix(message, lengths, k - 1);
      SliceAt(message, lengths, k - 1);
      PrefixStep(Slices(message, lengths), k - 1);
      TakeSplit(message, Sum(lengths[..k - 1]), Sum(lengths[..k]));
    }
  }

  /** Slice `i` runs from the `i`-th running total to the next. */
  lemma SliceAt(message: string, lengths: seq<nat>, i: nat)
    requires Sum(lengths) == |message| && i < |lengths|
    ensures Sum(lengths[..i]) <= Sum(lengths[..i + 1]) <= |message|
    ensures Slices(message, lengths)[i] == message[Sum(lengths[..i])..Sum(lengths[..i + 1])]
  {
    SumPrefix(lengths, i, i + 1);
  }

  /** A prefix of `s` is a shorter prefix followed by the slice between them. */
  lemma TakeSplit(s: string, a: nat, b: nat)
    requires a <= b <= |s|
    ensures s[..b] == s[..a] + s[a..b]
  {
  }

  /** The prefix of length `i + 1` is the prefix of length `i` and then `s[i]`. */
  lemma PrefixStep<T>(s: seq<T>, i: nat)
    requires i < |s|
    ensures s[..i + 1][..i] == s[..i] && s[..i + 1][i] == s[i]
  {
  }

  /** The segments, joined in order, give the message back. */
  lemma SegmentsJoin(message: string)
    ensures Concat(Segments(message)) == message
  {
    var lengths := Lengths(|message|);
    LengthsSum(|message|);
    SlicesPrefix(message, lengths, GroupSize);
    assert lengths[..GroupSize] == lengths;
    assert Segments(message)[..GroupSize] == Segments(message);
  }

  /*
   * The shuffled order.
   */

  /** `all([order[i] == i for i in range(GROUPSIZE)])`: the order is the original one. */
  predicate IsIdentity(order: seq<nat>)
  {
    forall i :: 0 <= i < |order| ==> order[i] == i
  }

  /** `order` lists each of `0 .. n-1` exactly once. */
  predicate IsPermutation(order: seq<nat>, n: nat)
  {
    && |order| == n
    && (forall i :: 0 <= i < n ==> order[i] < n)
    && (forall i, j :: 0 <= i < j < n ==> order[i] != order[j])
  }

  /** `list(range(n))`. */
  function Range(n: nat): (r: seq<nat>)
    ensures IsPermutation(r, n) && IsIdentity(r)
  {
    seq(n, i requires 0 <= i < n => i)
  }

  /**
   * `random.shuffle(order)`, with the random choice given as the
   * permutation `sigma`: position `i` receives the element at `sigma[i]`.
   */
  function Shuffle(order: seq<nat>, sigma: seq<nat>): (r: seq<nat>)
    requires IsPermutation(sigma, |order|)
    ensures IsPermutation(order, |order|) ==> IsPermutation(r, |order|)
    ensures |r| == |order|
  {
    seq(|order|, i requires 0 <= i < |order| => order[sigma[i]])
  }

  /** The order after the first `j` shuffles of the run. */
  function OrderAfter(shuffles: seq<seq<nat>>, j: nat): (r: seq<nat>)
    requires j <= |shuffles|
    requires forall k :: 0 <= k < |shuffles| ==> IsPermutation(shuffles[k], GroupSize)
    ensures IsPermutation(r, GroupSize)
  {
    if j == 0 then Range(GroupSize) else Shuffle(OrderAfter(shuffles, j - 1), shuffles[j - 1])
  }

  /**
   * The `while True` loop of `main`: shuffle until the order is not the original one. The
   * random choices are `shuffles`; when all of them leave the original order
   * the loop has not yet stopped, which `accepted == false` reports.
   */
  method ChooseOrder(shuffles: seq<seq<nat>>) returns (order: seq<nat>, accepted: bool)
    requires forall k :: 0 <= k < |shuffles| ==> IsPermutation(shuffles[k], GroupSize)
    ensures IsPermutation(order, GroupSize)
    ensures accepted <==> !IsIdentity(order)
    ensures accepted ==> exists j :: 0 < j <= |shuffles| && order == OrderAfter(shuffles, j)
                                   && forall k :: 0 < k < j ==> IsIdentity(OrderAfter(shuffles, k))
    ensures !accepted ==> forall k :: 0 < k <= |shuffles| ==> IsIdentity(OrderAfter(shuffles, k))
  {
    order := Range(GroupSize);
    accepted := false;
    var j := 0;
    while j < |shuffles|
      invariant j <= |shuffles| && order == OrderAfter(shuffles, j)
      invariant forall k :: 0 < k <= j ==> IsIdentity(OrderAfter(shuffles, k))
    {
      order := Shuffle(order, shuffles[j]);
      if !IsIdentity(order) {
        accepted := true;
        assert order == OrderAfter(shuffles, j + 1);
        return;
      }
      j := j + 1;
    }
  }

  /*
   * The script's own check.
   */

  /** The first loop of the check: segment `i` is encoded into the file numbered `order[i] + 1`. */
  method WriteSegments(segments: seq<string>, order: seq<nat>, key: Dict) returns (files: map<nat, string>)
    requires |segments| == GroupSize && IsPermutation(order, GroupSize)
    ensures forall k :: 0 <= k < GroupSize ==> order[k] + 1 in files && files[order[k] + 1] == Encoding(segments[k], key)
  {
    files := map[];
    for i := 0 to GroupSize
      invariant forall k :: 0 <= k < i ==> order[k] + 1 in files && files[order[k] + 1] == Encoding(segments[k], key)
    {
      var coded := Encode(segments[i], key);
      files := files[order[i] + 1 := coded];
    }
  }

  /**
   * The second loop of the check: the files read back in the order `order`
   * lists them, each decoded.
   */
  method ReadBack(files: map<nat, string>, order: seq<nat>, key: Dict) returns (decoded: seq<string>)
    requires |order| == GroupSize && forall k :: 0 <= k < GroupSize ==> order[k] + 1 in files
    ensures |decoded| == GroupSize
    ensures forall k :: 0 <= k < GroupSize ==> decoded[k] == Decoding(files[order[k] + 1], key)
  {
    decoded := [];
    for i := 0 to GroupSize
      invariant |decoded| == i
      invariant forall k :: 0 <= k < i ==> decoded[k] == Decoding(files[order[k] + 1], key)
    {
      var piece := Decode(files[order[i] + 1], key);
      decoded := decoded + [piece];
    }
  }

  /**
   * The check at the end of `main`: the segments are written to their files,
   * which are then read back in the order `order` lists them, decoded, and
   * the pieces joined.
   */
  method SelfTest(message: string, order: seq<nat>, key: Dict) returns (printed: string)
    requires IsPermutation(order, GroupSize)
    ensures printed == Concat(Decoded(Segments(message), key))
  {
    var segments := Segments(message);
    var files := WriteSegments(segments, order, key);
    var decoded := ReadBack(files, order, key);
    assert decoded == Decoded(segments, key);
    printed := Concat(decoded);
  }

  /** Each part encoded, then decoded. */
  function Decoded(parts: seq<string>, key: Dict): (r: seq<string>)
    ensures |r| == |parts|
  {
    seq(|parts|, i requires 0 <= i < |parts| => Decoding(Encoding(parts[i], key), key))
  }

  /** Each part cleaned and translated. */
  function TranslatedParts(parts: seq<string>, key: Dict): (r: seq<string>)
    ensures |r| == |parts|
  {
    seq(|parts|, i requires 0 <= i < |parts| => Translated(Clean(parts[i]), key))
  }

  /** Translation keeps the order of the characters, so it distributes over concatenation. */
  lemma {:induction false} TranslatedAppend(a: string, b: string, key: Dict)
    ensures Translated(a + b, key) == Translated(a, key) + Translated(b, key)
  {
    if b == [] {
      assert a + b == a;
    } else {
      var init, c := b[..|b| - 1], b[|b| - 1];
      assert (a + b)[..|a + b| - 1] == a + init;
      assert (a + b)[|a + b| - 1] == c;
      TranslatedAppend(a, init, key);
    }
  }

  /** Cleaning and translating the joined parts is joining the cleaned, translated parts. */
  lemma {:induction false} TranslatedConcat(parts: seq<string>, key: Dict)
    ensures Translated(Clean(Concat(parts)), key) == Concat(TranslatedParts(parts, key))
  {
    if parts != [] {
      var n := |parts|;
      var init, last := parts[..n - 1], parts[n - 1];
      TranslatedConcat(init, key);
      var t := TranslatedParts(parts, key);
      assert t[..n - 1] == TranslatedParts(init, key);
      ReplaceAppend(Concat(init), last, '\n', ' ');
      CleanReplaces(Concat(parts));
      CleanReplaces(Concat(init));
      CleanReplaces(last);
      TranslatedAppend(Clean(Concat(init)), Clean(last), key);
    }
  }

  /** Every part with something translatable comes back from its encoding cleaned and translated. */
  lemma DecodedRestores(parts: seq<string>, key: Dict)
    requires Decodable(key)
    requires forall i :: 0 <= i < |parts| ==> Translated(Clean(parts[i]), key) != []
    ensures Decoded(parts, key) == TranslatedParts(parts, key)
  {
    forall i | 0 <= i < |parts|
      ensures Decoded(parts, key)[i] == TranslatedParts(parts, key)[i]
    {
      RoundTrip(parts[i], key);
    }
  }

  /**
   * The check prints the message back (newlines as spaces, upper-cased,
   * untranslatable characters dropped) when every segment holds something
   * the key translates; whatever the order of the files.
   */
  lemma SelfTestPrintsMessage(message: string, key: Dict)
    requires Decodable(key)
    requires forall i :: 0 <= i < GroupSize ==> Translated(Clean(Segments(message)[i]), key) != []
    ensures Concat(Decoded(Segments(message), key)) == Translated(Clean(message), key)
  {
    var segments := Segments(message);
    DecodedRestores(segments, key);
    TranslatedConcat(segments, key);
    SegmentsJoin(message);
  }
}
