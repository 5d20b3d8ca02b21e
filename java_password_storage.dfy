/**
 * PasswordStorage.java: a fixed-width, length-prefixed encoding without delimiters.
 * HASH_SEQUENCE fixes the order of the items; fixed-width items are read by their
 * HashItem length, the two base64 strings by the size field read before them.
 */
module JavaPasswordStorage {

  import opened Common
  import opened Text
  import Base64
  import ConstantTime

  const Pbkdf2Algorithm: string := "PBKDF2WithHmac"
  const HashAlgorithm: string := "sha512"

  // These may change without breaking stored hashes.
  const SaltByteSize: nat := 18
  const HashByteSize: nat := 20
  const Pbkdf2Iterations: nat := 13000

  /** The items of the encoding, with their widths; 0 marks an item of variable length. */
  datatype HashItem = Algorithm | Iterations | HashSize | Pbkdf2 | SaltSize | Salt
  {
    function Length(): nat {
      match this
      case Algorithm => 6
      case Iterations => 6
      case HashSize => 3
      case Pbkdf2 => 0
      case SaltSize => 3
      case Salt => 0
    }
  }

  /** The order in which items are written and read. */
  const HashSequence: seq<HashItem> := [Algorithm, Iterations, HashSize, Pbkdf2, SaltSize, Salt]

  /** StringIndexOutOfBoundsException, NumberFormatException, IllegalArgumentException. */
  datatype JavaError = IndexOutOfBounds | NumberFormat | IllegalArgument

  /** The content of a Hash object. */
  datatype HashFields = HashFields(algorithm: string, iterations: int, hash: seq<byte>, hashStr: string,
                                   salt: seq<byte>, saltStr: string)

  // ---------------------------------------------------------------------------
  // Java string formatting and parsing
  // ---------------------------------------------------------------------------

  /** String.trim: every leading and trailing character up to ' ' removed. */
  function Trim(s: string): (r: string)
    ensures |r| <= |s|
    ensures r != [] ==> r[0] > ' ' && r[|r| - 1] > ' '
  {
    TrimEnd(TrimStart(s))
  }

  function TrimStart(s: string): (r: string)
    ensures |r| <= |s| && r == s[|s| - |r|..]
    ensures r != [] ==> r[0] > ' '
  {
    if s != [] && s[0] <= ' ' then TrimStart(s[1..]) else s
  }

  function TrimEnd(s: string): (r: string)
    ensures |r| <= |s| && r == s[..|r|]
    ensures r != [] ==> r[|r| - 1] > ' '
  {
    if s != [] && s[|s| - 1] <= ' ' then TrimEnd(s[..|s| - 1]) else s
  }

  /** Neither end of s is a character trim removes. */
  predicate Trimmed(s: string) {
    s == [] || (s[0] > ' ' && s[|s| - 1] > ' ')
  }

  function Spaces(n: nat): (s: string)
    ensures |s| == n && forall i :: 0 <= i < n ==> s[i] == ' '
  {
    seq(n, _ => ' ')
  }

  /** String.format("%ws", s): s right-aligned in w columns, never cut. */
  function PadLeft(s: string, w: nat): (r: string)
    ensures |r| == if |s| < w then w else |s|
  {
    if |s| < w then Spaces(w - |s|) + s else s
  }

  /** String.format("%0wd", n): n in decimal, zero-filled after any sign to w columns, never cut. */
  function ZeroPad(n: int, w: nat): (r: string)
    ensures |r| >= 1
  {
    if n >= 0 then
      var d := NatToString(n);
      (if |d| < w then Zeros(w - |d|) else "") + d
    else
      var d := NatToString(-n);
      "-" + (if |d| + 1 < w then Zeros(w - 1 - |d|) else "") + d
  }

  /** Integer.parseInt: None for a NumberFormatException. */
  function ParseInt(s: string): (r: Option<int>)
    ensures r.Some? ==> Int32Min <= r.value <= Int32Max
  {
    match ParseInt32(s)
    case Ok(v) => Some(v)
    case Err(_) => None
  }

  /** trim undoes the padding of %ws for a name without surrounding blanks. */
  lemma TrimPadLeft(s: string, w: nat)
    requires Trimmed(s)
    ensures Trim(PadLeft(s, w)) == s
  {
    SpacesTrimmed(if |s| < w then w - |s| else 0, s);
    if |s| >= w {
      assert Spaces(0) + s == s;
    }
  }

  lemma {:induction false} SpacesTrimmed(n: nat, s: string)
    requires Trimmed(s)
    ensures TrimStart(Spaces(n) + s) == s
    ensures TrimEnd(s) == s
  {
    if n > 0 {
      assert (Spaces(n) + s)[1..] == Spaces(n - 1) + s;
      SpacesTrimmed(n - 1, s);
    } else {
      assert Spaces(n) + s == s;
      if s != [] {
        assert TrimStart(s) == s;
      }
    }
  }

  /** %0wd of a number with at most w digits has exactly w characters and reads back. */
  lemma ZeroPadReadBack(n: nat, w: nat)
    requires w >= 1 && n < Pow10(w) && n <= Int32Max
    ensures |ZeroPad(n, w)| == w
    ensures ParseInt(ZeroPad(n, w)) == Some(n)
  {
    var d := NatToString(n);
    NatToStringLength(n, w);
    DigitsValueOfNatToString(n);
    var z := w - |d|;
    DigitsValueOfZeros(z, d);
    assert ZeroPad(n, w) == Zeros(z) + d;
    UnsignedDigitsRead(Zeros(z) + d);
  }

  // ---------------------------------------------------------------------------
  // The encoding, item by item
  // ---------------------------------------------------------------------------

  /** The text toString appends for one item. */
  function Render(item: HashItem, h: HashFields): string {
    match item
    case Algorithm => PadLeft(h.algorithm, item.Length())
    case Iterations => ZeroPad(h.iterations, item.Length())
    case HashSize => ZeroPad(|h.hashStr|, item.Length())
    case Pbkdf2 => h.hashStr
    case SaltSize => ZeroPad(|h.saltStr|, item.Length())
    case Salt => h.saltStr
  }

  /** toString over a sequence of items: their renderings, in order. */
  function Format(items: seq<HashItem>, h: HashFields): string {
    if items == [] then "" else Format(items[..|items| - 1], h) + Render(items[|items| - 1], h)
  }

  /** The parser's state: the unread text, the two size fields read so far, the fields set so far. */
  datatype Parser = Parser(builder: string, hashStrLength: int, saltStrLength: int, fields: HashFields)

  /** The fields of an object that nothing has been assigned to yet. */
  const Unset: HashFields := HashFields("", 0, [], "", [], "")

  function Start(correctHash: string): Parser {
    Parser(correctHash, -1, -1, Unset)
  }

  /**
   * One iteration of the Hash(String) loop: read the item's width (or the size read
   * earlier) of characters off the front, failing when there are fewer, and store it.
   */
  function Step(p: Parser, item: HashItem, decode: Base64.Decoder): (r: Result<Parser, JavaError>)
    ensures r.Ok? ==> |r.value.builder| <= |p.builder| && r.value.builder == p.builder[|p.builder| - |r.value.builder|..]
  {
    var b := p.builder;
    var colLength := item.Length();
    match item
    case Algorithm =>
      if colLength > |b| then Err(IndexOutOfBounds)
      else Ok(p.(fields := p.fields.(algorithm := Trim(b[..colLength])), builder := b[colLength..]))
    case Iterations =>
      if colLength > |b| then Err(IndexOutOfBounds)
      else (match ParseInt(b[..colLength])
        case None => Err(NumberFormat)
        case Some(v) => Ok(p.(fields := p.fields.(iterations := v), builder := b[colLength..])))
    case HashSize =>
      if colLength > |b| then Err(IndexOutOfBounds)
      else (match ParseInt(b[..colLength])
        case None => Err(NumberFormat)
        case Some(v) => Ok(p.(hashStrLength := v, builder := b[colLength..])))
    case Pbkdf2 =>
      if p.hashStrLength < 0 then Err(IllegalArgument)
      else if p.hashStrLength > |b| then Err(IndexOutOfBounds)
      else
        var hashStr := b[..p.hashStrLength];
        Ok(p.(fields := p.fields.(hashStr := hashStr, hash := decode(hashStr)), builder := b[p.hashStrLength..]))
    case SaltSize =>
      if colLength > |b| then Err(IndexOutOfBounds)
      else (match ParseInt(b[..colLength])
        case None => Err(NumberFormat)
        case Some(v) => Ok(p.(saltStrLength := v, builder := b[colLength..])))
    case Salt =>
      if p.saltStrLength < 0 then Err(IllegalArgument)
      else if p.saltStrLength > |b| then Err(IndexOutOfBounds)
      else
        var saltStr := b[..p.saltStrLength];
        Ok(p.(fields := p.fields.(saltStr := saltStr, salt := decode(saltStr)), builder := b[p.saltStrLength..]))
  }

  /** The loop over a sequence of items, stopping at the first exception. */
  function Run(p: Parser, items: seq<HashItem>, decode: Base64.Decoder): Result<Parser, JavaError> {
    if items == [] then Ok(p)
    else
      match Run(p, items[..|items| - 1], decode)
      case Err(e) => Err(e)
      case Ok(q) => Step(q, items[|items| - 1], decode)
  }

  /** Hash(String): the loop over HASH_SEQUENCE from the whole string. */
  function Parse(correctHash: string, decode: Base64.Decoder): Result<HashFields, JavaError> {
    match Run(Start(correctHash), HashSequence, decode)
    case Err(e) => Err(e)
    case Ok(p) => Ok(p.fields)
  }

  /** An exception ends the loop: the items after it change nothing. */
  lemma {:induction false} RunStops(p: Parser, items: seq<HashItem>, k: nat, decode: Base64.Decoder)
    requires k <= |items| && Run(p, items[..k], decode).Err?
    ensures Run(p, items, decode) == Run(p, items[..k], decode)
    decreases |items| - k
  {
    if k < |items| {
      assert items[..k + 1][..k] == items[..k];
      RunStops(p, items, k + 1, decode);
    } else {
      assert items[..k] == items;
    }
  }

  // ---------------------------------------------------------------------------
  // Round trip, exact consumption, truncation, ordering
  // ---------------------------------------------------------------------------

  /**
   * What toString writes can be read back: a name of at most six characters without
   * surrounding blanks, 0 <= iterations < 10^6, base64 strings under 1000 characters.
   */
  predicate Encodable(h: HashFields) {
    && |h.algorithm| <= HashItem.Algorithm.Length() && Trimmed(h.algorithm)
    && 0 <= h.iterations < 1000000
    && |h.hashStr| < 1000 && |h.saltStr| < 1000
  }

  /** The fields Hash(String) recovers from what toString wrote: the bytes are the decoder's. */
  function Reread(h: HashFields, decode: Base64.Decoder): HashFields {
    h.(hash := decode(h.hashStr), salt := decode(h.saltStr))
  }

  lemma RunSnoc(p: Parser, items: seq<HashItem>, item: HashItem, decode: Base64.Decoder)
    ensures Run(p, items + [item], decode) == match Run(p, items, decode)
                                               case Err(e) => Err(e)
                                               case Ok(q) => Step(q, item, decode)
  {
    assert (items + [item])[..|items|] == items;
  }

  lemma Pow10Values()
    ensures Pow10(3) == 1000 && Pow10(6) == 1000000
  {
    assert Pow10(2) == 100;
    assert Pow10(4) == 10000;
  }

  /**
   * Hash(String) on what toString wrote, followed by anything, reads each item back and
   * stops exactly where the encoding ends: 6 + 6 + 3 + |hashStr| + 3 + |saltStr| characters.
   */
  lemma ParseFormat(h: HashFields, rest: string, decode: Base64.Decoder)
    requires Encodable(h)
    ensures Run(Start(Format(HashSequence, h) + rest), HashSequence, decode)
            == Ok(Parser(rest, |h.hashStr|, |h.saltStr|, Reread(h, decode)))
  {
    ParseFrom(h, HashSequence, rest, decode);
  }

  lemma ParseFrom(h: HashFields, items: seq<HashItem>, rest: string, decode: Base64.Decoder)
    requires Encodable(h) && items == HashSequence
    ensures Run(Start(Format(items, h) + rest), items, decode)
            == Ok(Parser(rest, |h.hashStr|, |h.saltStr|, Reread(h, decode)))
  {
    var p0 := Start(Format(items, h) + rest);
    assert Run(p0, items[..0], decode) == Ok(After(h, items, 0, rest, decode)) by {
      FormatUnread(h, items, 0, rest);
      assert items[..0] == [];
      assert Format(items[..0], h) + Unread(h, items, 0, rest) == Unread(h, items, 0, rest);
      assert p0 == After(h, items, 0, rest, decode);
    }
    ReadAll(h, items, p0, rest, decode);
    assert Unread(h, items, 6, rest) == rest;
  }

  /** Reading the six items back, one after the other, from any state the first item starts at. */
  lemma ReadAll(h: HashFields, items: seq<HashItem>, p0: Parser, rest: string, decode: Base64.Decoder)
    requires Encodable(h) && |items| == 6
    requires items[0] == Algorithm && items[1] == Iterations && items[2] == HashSize
    requires items[3] == Pbkdf2 && items[4] == SaltSize && items[5] == Salt
    requires Run(p0, items[..0], decode) == Ok(After(h, items, 0, rest, decode))
    ensures Run(p0, items, decode) == Ok(After(h, items, 6, rest, decode))
  {
    ReadAlgorithm(h, items, p0, rest, decode);
    ReadIterations(h, items, p0, rest, decode);
    ReadHashSize(h, items, p0, rest, decode);
    ReadHashString(h, items, p0, rest, decode);
    ReadSaltSize(h, items, p0, rest, decode);
    ReadSaltString(h, items, p0, rest, decode);
    assert items[..6] == items;
  }

  /** The text after the first k items of what toString wrote for items, followed by rest. */
  function Unread(h: HashFields, items: seq<HashItem>, k: nat, rest: string): string
    requires k <= |items|
    decreases |items| - k
  {
    if k == |items| then rest else Render(items[k], h) + Unread(h, items, k + 1, rest)
  }

  /** The parser's state after reading the first k items of HASH_SEQUENCE back. */
  function After(h: HashFields, items: seq<HashItem>, k: nat, rest: string, decode: Base64.Decoder): Parser
    requires k <= |items|
  {
    Parser(Unread(h, items, k, rest), if k >= 3 then |h.hashStr| else -1, if k >= 5 then |h.saltStr| else -1,
           HashFields(if k >= 1 then h.algorithm else "", if k >= 2 then h.iterations else 0,
                      if k >= 4 then decode(h.hashStr) else [], if k >= 4 then h.hashStr else "",
                      if k >= 6 then decode(h.saltStr) else [], if k >= 6 then h.saltStr else ""))
  }

  /** The algorithm name. */
  lemma ReadAlgorithm(h: HashFields, items: seq<HashItem>, p0: Parser, rest: string, decode: Base64.Decoder)
    requires Encodable(h) && 0 < |items| && items[0] == Algorithm
    requires Run(p0, items[..0], decode) == Ok(After(h, items, 0, rest, decode))
    ensures Run(p0, items[..1], decode) == Ok(After(h, items, 1, rest, decode))
  {
    RunAlgorithm(p0, items, After(h, items, 0, rest, decode), h.algorithm, Unread(h, items, 1, rest), decode);
  }

  /** The iteration count. */
  lemma ReadIterations(h: HashFields, items: seq<HashItem>, p0: Parser, rest: string, decode: Base64.Decoder)
    requires Encodable(h) && 1 < |items| && items[1] == Iterations
    requires Run(p0, items[..1], decode) == Ok(After(h, items, 1, rest, decode))
    ensures Run(p0, items[..2], decode) == Ok(After(h, items, 2, rest, decode))
  {
    Pow10Values();
    RunNumber(p0, items, 1, Iterations, After(h, items, 1, rest, decode), h.iterations, Unread(h, items, 2, rest), decode);
  }

  /** The length of the encoded hash. */
  lemma ReadHashSize(h: HashFields, items: seq<HashItem>, p0: Parser, rest: string, decode: Base64.Decoder)
    requires Encodable(h) && 2 < |items| && items[2] == HashSize
    requires Run(p0, items[..2], decode) == Ok(After(h, items, 2, rest, decode))
    ensures Run(p0, items[..3], decode) == Ok(After(h, items, 3, rest, decode))
  {
    Pow10Values();
    RunNumber(p0, items, 2, HashSize, After(h, items, 2, rest, decode), |h.hashStr|, Unread(h, items, 3, rest), decode);
  }

  /** The encoded hash. */
  lemma ReadHashString(h: HashFields, items: seq<HashItem>, p0: Parser, rest: string, decode: Base64.Decoder)
    requires Encodable(h) && 3 < |items| && items[3] == Pbkdf2
    requires Run(p0, items[..3], decode) == Ok(After(h, items, 3, rest, decode))
    ensures Run(p0, items[..4], decode) == Ok(After(h, items, 4, rest, decode))
  {
    RunString(p0, items, 3, Pbkdf2, After(h, items, 3, rest, decode), h.hashStr, Unread(h, items, 4, rest), decode);
  }

  /** The length of the encoded salt. */
  lemma ReadSaltSize(h: HashFields, items: seq<HashItem>, p0: Parser, rest: string, decode: Base64.Decoder)
    requires Encodable(h) && 4 < |items| && items[4] == SaltSize
    requires Run(p0, items[..4], decode) == Ok(After(h, items, 4, rest, decode))
    ensures Run(p0, items[..5], decode) == Ok(After(h, items, 5, rest, decode))
  {
    Pow10Values();
    RunNumber(p0, items, 4, SaltSize, After(h, items, 4, rest, decode), |h.saltStr|, Unread(h, items, 5, rest), decode);
  }

  /** The encoded salt. */
  lemma ReadSaltString(h: HashFields, items: seq<HashItem>, p0: Parser, rest: string, decode: Base64.Decoder)
    requires Encodable(h) && |items| == 6 && items[5] == Salt
    requires Run(p0, items[..5], decode) == Ok(After(h, items, 5, rest, decode))
    ensures Run(p0, items[..6], decode) == Ok(After(h, items, 6, rest, decode))
  {
    RunString(p0, items, 5, Salt, After(h, items, 5, rest, decode), h.saltStr, Unread(h, items, 6, rest), decode);
  }

  /** The first six characters, trimmed, are the name %6s padded. */
  lemma RunAlgorithm(p0: Parser, items: seq<HashItem>, q: Parser, a: string, t: string, decode: Base64.Decoder)
    requires 0 < |items| && items[0] == Algorithm && Run(p0, items[..0], decode) == Ok(q)
    requires |a| <= 6 && Trimmed(a) && q.builder == PadLeft(a, 6) + t
    ensures Run(p0, items[..1], decode) == Ok(q.(fields := q.fields.(algorithm := a), builder := t))
  {
    TrimPadLeft(a, 6);
    ReadText(q.builder, PadLeft(a, 6), t);
    RunNext(p0, items, 0, Algorithm, q, q.(fields := q.fields.(algorithm := a), builder := t), decode);
  }

  /** A size or count field reads back the number %0wd wrote. */
  lemma RunNumber(p0: Parser, items: seq<HashItem>, k: nat, item: HashItem, q: Parser, n: nat, t: string,
                  decode: Base64.Decoder)
    requires k < |items| && items[k] == item
    requires item == Iterations || item == HashSize || item == SaltSize
    requires n < Pow10(item.Length()) && n <= Int32Max
    requires Run(p0, items[..k], decode) == Ok(q)
    requires q.builder == ZeroPad(n, item.Length()) + t
    ensures Run(p0, items[..k + 1], decode) == Ok(
              if item == Iterations then q.(fields := q.fields.(iterations := n), builder := t)
              else if item == HashSize then q.(hashStrLength := n, builder := t)
              else q.(saltStrLength := n, builder := t))
  {
    ZeroPadReadBack(n, item.Length());
    ReadText(q.builder, ZeroPad(n, item.Length()), t);
    RunNext(p0, items, k, item, q, Step(q, item, decode).value, decode);
  }

  /** A base64 field is read by the size stored before it. */
  lemma RunString(p0: Parser, items: seq<HashItem>, k: nat, item: HashItem, q: Parser, x: string, t: string,
                  decode: Base64.Decoder)
    requires k < |items| && items[k] == item
    requires item == Pbkdf2 || item == Salt
    requires Run(p0, items[..k], decode) == Ok(q)
    requires q.builder == x + t
    requires (if item == Pbkdf2 then q.hashStrLength else q.saltStrLength) == |x|
    ensures Run(p0, items[..k + 1], decode) == Ok(
              if item == Pbkdf2 then q.(fields := q.fields.(hashStr := x, hash := decode(x)), builder := t)
              else q.(fields := q.fields.(saltStr := x, salt := decode(x)), builder := t))
  {
    ReadText(q.builder, x, t);
    RunNext(p0, items, k, item, q, Step(q, item, decode).value, decode);
  }

  /** One more successful step extends a run over a prefix. */
  lemma RunNext(p0: Parser, items: seq<HashItem>, k: nat, item: HashItem, q: Parser, r: Parser, decode: Base64.Decoder)
    requires k < |items| && items[k] == item
    requires Run(p0, items[..k], decode) == Ok(q) && Step(q, item, decode) == Ok(r)
    ensures Run(p0, items[..k + 1], decode) == Ok(r)
  {
    assert items[..k + 1][..k] == items[..k];
  }

  lemma ReadText(b: string, x: string, t: string)
    requires b == x + t
    ensures |x| <= |b| && b[..|x|] == x && b[|x|..] == t
  {
  }

  /** What toString wrote, split after k items: the first k renderings, then the rest unread. */
  lemma {:induction false} FormatUnread(h: HashFields, items: seq<HashItem>, k: nat, rest: string)
    requires k <= |items|
    ensures Format(items[..k], h) + Unread(h, items, k, rest) == Format(items, h) + rest
    decreases |items| - k
  {
    if k == |items| {
      assert items[..k] == items;
    } else {
      FormatUnread(h, items, k + 1, rest);
      assert items[..k + 1][..k] == items[..k];
      Associative(Format(items[..k], h), Render(items[k], h), Unread(h, items, k + 1, rest));
    }
  }

  lemma ParseOfFormat(h: HashFields, decode: Base64.Decoder)
    requires Encodable(h)
    ensures Parse(Format(HashSequence, h), decode) == Ok(Reread(h, decode))
  {
    ParseFormat(h, "", decode);
    assert Format(HashSequence, h) + "" == Format(HashSequence, h);
  }

  /** Characters after a complete encoding are never read. */
  lemma TrailingIgnored(h: HashFields, rest: string, decode: Base64.Decoder)
    requires Encodable(h)
    ensures Parse(Format(HashSequence, h) + rest, decode) == Ok(Reread(h, decode))
  {
    ParseFormat(h, rest, decode);
  }

  /** cut is full with the last d characters of the unread text missing. */
  predicate Shortened(full: Parser, cut: Parser, d: nat) {
    |full.builder| >= d && cut == full.(builder := full.builder[..|full.builder| - d])
  }

  /** A step on shortened text reads what the full step reads, or runs out of characters. */
  lemma StepShortened(full: Parser, cut: Parser, d: nat, item: HashItem, decode: Base64.Decoder)
    requires Shortened(full, cut, d) && Step(full, item, decode).Ok?
    ensures Step(cut, item, decode) == Err(IndexOutOfBounds) ||
            (Step(cut, item, decode).Ok? && Shortened(Step(full, item, decode).value, Step(cut, item, decode).value, d))
  {
    if item == Pbkdf2 || item == Salt {
      SizedStepShortened(full, cut, d, item, decode);
    } else if item == Algorithm {
      CutRead(full.builder, d, item.Length());
    } else {
      NumberStepShortened(full, cut, d, item, decode);
    }
  }

  lemma SizedStepShortened(full: Parser, cut: Parser, d: nat, item: HashItem, decode: Base64.Decoder)
    requires item == Pbkdf2 || item == Salt
    requires Shortened(full, cut, d) && Step(full, item, decode).Ok?
    ensures Step(cut, item, decode) == Err(IndexOutOfBounds) ||
            (Step(cut, item, decode).Ok? && Shortened(Step(full, item, decode).value, Step(cut, item, decode).value, d))
  {
    CutRead(full.builder, d, if item == Pbkdf2 then full.hashStrLength else full.saltStrLength);
  }

  lemma NumberStepShortened(full: Parser, cut: Parser, d: nat, item: HashItem, decode: Base64.Decoder)
    requires item == Iterations || item == HashSize || item == SaltSize
    requires Shortened(full, cut, d) && Step(full, item, decode).Ok?
    ensures Step(cut, item, decode) == Err(IndexOutOfBounds) ||
            (Step(cut, item, decode).Ok? && Shortened(Step(full, item, decode).value, Step(cut, item, decode).value, d))
  {
    CutRead(full.builder, d, item.Length());
  }

  /** Reading k characters off text missing its last d characters. */
  lemma CutRead(b: string, d: nat, k: int)
    requires d <= |b|
    ensures 0 <= k <= |b| - d ==> b[..|b| - d][..k] == b[..k] && b[..|b| - d][k..] == b[k..][..|b[k..]| - d]
  {
  }

  lemma {:induction false} RunShortened(full: Parser, cut: Parser, d: nat, items: seq<HashItem>, decode: Base64.Decoder)
    requires Shortened(full, cut, d) && Run(full, items, decode).Ok?
    ensures Run(cut, items, decode) == Err(IndexOutOfBounds) ||
            (Run(cut, items, decode).Ok? && Shortened(Run(full, items, decode).value, Run(cut, items, decode).value, d))
  {
    if items != [] {
      var init := items[..|items| - 1];
      RunShortened(full, cut, d, init, decode);
      if Run(cut, init, decode).Ok? {
        StepShortened(Run(full, init, decode).value, Run(cut, init, decode).value, d, items[|items| - 1], decode);
      }
    }
  }

  /** Every proper prefix of an encoding fails with StringIndexOutOfBoundsException. */
  lemma TruncatedFails(h: HashFields, n: nat, decode: Base64.Decoder)
    requires Encodable(h) && n < |Format(HashSequence, h)|
    ensures Parse(Format(HashSequence, h)[..n], decode) == Err(IndexOutOfBounds)
  {
    var s := Format(HashSequence, h);
    ParseFormat(h, "", decode);
    assert s + "" == s;
    var d := |s| - n;
    assert Shortened(Start(s), Start(s[..n]), d);
    RunShortened(Start(s), Start(s[..n]), d, HashSequence, decode);
  }

  /** Items that are not size fields leave the sizes as they were. */
  lemma {:induction false} RunKeepsSizes(p: Parser, items: seq<HashItem>, decode: Base64.Decoder)
    requires Run(p, items, decode).Ok?
    ensures HashSize !in items ==> Run(p, items, decode).value.hashStrLength == p.hashStrLength
    ensures SaltSize !in items ==> Run(p, items, decode).value.saltStrLength == p.saltStrLength
  {
    if items != [] {
      RunKeepsSizes(p, items[..|items| - 1], decode);
    }
  }

  /**
   * A sequence that reaches PBKDF2 before HASH_SIZE never parses: a lengthless read is an
   * IllegalArgumentException unless an earlier item already failed.
   */
  lemma HashSizeFirst(correctHash: string, items: seq<HashItem>, k: nat, decode: Base64.Decoder)
    requires k < |items| && items[k] == Pbkdf2 && HashSize !in items[..k]
    ensures Run(Start(correctHash), items, decode).Err?
    ensures Run(Start(correctHash), items[..k], decode).Ok? ==>
              Run(Start(correctHash), items, decode) == Err(IllegalArgument)
  {
    var p, pre := Start(correctHash), items[..k];
    assert items[..k + 1] == pre + [Pbkdf2];
    RunSnoc(p, pre, Pbkdf2, decode);
    if Run(p, pre, decode).Ok? {
      RunKeepsSizes(p, pre, decode);
    }
    RunStops(p, items, k + 1, decode);
  }

  /** Likewise for SALT before SALT_SIZE. */
  lemma SaltSizeFirst(correctHash: string, items: seq<HashItem>, k: nat, decode: Base64.Decoder)
    requires k < |items| && items[k] == Salt && SaltSize !in items[..k]
    ensures Run(Start(correctHash), items, decode).Err?
    ensures Run(Start(correctHash), items[..k], decode).Ok? ==>
              Run(Start(correctHash), items, decode) == Err(IllegalArgument)
  {
    var p, pre := Start(correctHash), items[..k];
    assert items[..k + 1] == pre + [Salt];
    RunSnoc(p, pre, Salt, decode);
    if Run(p, pre, decode).Ok? {
      RunKeepsSizes(p, pre, decode);
    }
    RunStops(p, items, k + 1, decode);
  }

  // ---------------------------------------------------------------------------
  // The object
  // ---------------------------------------------------------------------------

  class Hash {
    var hashAlgorithm: string
    var pbkdf2Iterations: int
    var hash: seq<byte>
    var hashStr: string
    var salt: seq<byte>
    var saltStr: string

    function Fields(): HashFields
      reads this
    {
      HashFields(hashAlgorithm, pbkdf2Iterations, hash, hashStr, salt, saltStr)
    }

    /** Hash(): nothing assigned. */
    constructor ()
      ensures Fields() == Unset
    {
      hashAlgorithm, pbkdf2Iterations, hash, hashStr, salt, saltStr := "", 0, [], "", [], "";
    }

    method SetHashAlgorithm(hashAlgorithm: string)
      modifies this
      ensures Fields() == old(Fields()).(algorithm := hashAlgorithm)
    {
      this.hashAlgorithm := hashAlgorithm;
    }

    method SetPbkdf2Iterations(pbkdf2Iterations: int)
      modifies this
      ensures Fields() == old(Fields()).(iterations := pbkdf2Iterations)
    {
      this.pbkdf2Iterations := pbkdf2Iterations;
    }

    /** setHash stores the bytes together with their base64 text. */
    method SetHash(hash: seq<byte>)
      modifies this
      ensures Fields() == old(Fields()).(hash := hash, hashStr := Base64.Encode(hash))
      ensures Base64.Decode(hashStr) == Some(this.hash)
    {
      this.hash := hash;
      this.hashStr := Base64.Encode(hash);
      Base64.DecodeEncode(hash);
    }

    /** setSalt stores the bytes together with their base64 text. */
    method SetSalt(salt: seq<byte>)
      modifies this
      ensures Fields() == old(Fields()).(salt := salt, saltStr := Base64.Encode(salt))
      ensures Base64.Decode(saltStr) == Some(this.salt)
    {
      this.salt := salt;
      this.saltStr := Base64.Encode(salt);
      Base64.DecodeEncode(salt);
    }

    /** toString: the items of HASH_SEQUENCE rendered one after the other. */
    method ToString() returns (s: string)
      ensures s == Format(HashSequence, Fields())
    {
      var builder := "";
      for k := 0 to |HashSequence|
        invariant builder == Format(HashSequence[..k], Fields())
      {
        var item := HashSequence[k];
        match item {
          case Algorithm => builder := builder + PadLeft(hashAlgorithm, item.Length());
          case Iterations => builder := builder + ZeroPad(pbkdf2Iterations, item.Length());
          case HashSize => builder := builder + ZeroPad(|hashStr|, item.Length());
          case Pbkdf2 => builder := builder + hashStr;
          case SaltSize => builder := builder + ZeroPad(|saltStr|, item.Length());
          case Salt => builder := builder + saltStr;
        }
        assert HashSequence[..k + 1][..k] == HashSequence[..k];
      }
      assert HashSequence[..|HashSequence|] == HashSequence;
      s := builder;
    }

    /**
     * Hash(String): one item of HASH_SEQUENCE at a time off the front of the text, with
     * the exception of the first step that fails.
     */
    static method FromString(correctHash: string, decode: Base64.Decoder) returns (r: Result<Hash, JavaError>)
      ensures r.Ok? <==> Parse(correctHash, decode).Ok?
      ensures r.Err? ==> r.error == Parse(correctHash, decode).error
      ensures r.Ok? ==> fresh(r.value) && r.value.Fields() == Parse(correctHash, decode).value
    {
      var h := new Hash();
      var builder := correctHash;
      var hashStrLength := -1;
      var saltStrLength := -1;
      for k := 0 to |HashSequence|
        invariant Run(Start(correctHash), HashSequence[..k], decode)
                  == Ok(Parser(builder, hashStrLength, saltStrLength, h.Fields()))
      {
        assert HashSequence[..k + 1][..k] == HashSequence[..k];
        var next := h.ReadItem(builder, hashStrLength, saltStrLength, HashSequence[k], decode);
        if next.Err? {
          RunStops(Start(correctHash), HashSequence, k + 1, decode);
          return Err(next.error);
        }
        builder, hashStrLength, saltStrLength := next.value.0, next.value.1, next.value.2;
      }
      assert HashSequence[..|HashSequence|] == HashSequence;
      return Ok(h);
    }

    /**
     * The body of the Hash(String) loop for one item: the unread text and the two sizes
     * afterwards, the fields of this object updated, or the exception.
     */
    method ReadItem(builder: string, hashStrLength: int, saltStrLength: int, item: HashItem, decode: Base64.Decoder)
      returns (r: Result<(string, int, int), JavaError>)
      modifies this
      ensures var step := Step(Parser(builder, hashStrLength, saltStrLength, old(Fields())), item, decode);
              && (r.Ok? <==> step.Ok?)
              && (r.Err? ==> r.error == step.error)
              && (r.Ok? ==> step.value == Parser(r.value.0, r.value.1, r.value.2, Fields()))
    {
      var colLength := item.Length();
      match item {
        case Algorithm =>
          if colLength > |builder| {
            return Err(IndexOutOfBounds);
          }
          hashAlgorithm := Trim(builder[..colLength]);
          return Ok((builder[colLength..], hashStrLength, saltStrLength));
        case Iterations =>
          if colLength > |builder| {
            return Err(IndexOutOfBounds);
          }
          var v := ParseInt(builder[..colLength]);
          if v.None? {
            return Err(NumberFormat);
          }
          pbkdf2Iterations := v.value;
          return Ok((builder[colLength..], hashStrLength, saltStrLength));
        case HashSize =>
          if colLength > |builder| {
            return Err(IndexOutOfBounds);
          }
          var v := ParseInt(builder[..colLength]);
          if v.None? {
            return Err(NumberFormat);
          }
          return Ok((builder[colLength..], v.value, saltStrLength));
        case Pbkdf2 =>
          if hashStrLength < 0 {
            return Err(IllegalArgument);
          }
          if hashStrLength > |builder| {
            return Err(IndexOutOfBounds);
          }
          hashStr := builder[..hashStrLength];
          hash := decode(hashStr);
          return Ok((builder[hashStrLength..], hashStrLength, saltStrLength));
        case SaltSize =>
          if colLength > |builder| {
            return Err(IndexOutOfBounds);
          }
          var v := ParseInt(builder[..colLength]);
          if v.None? {
            return Err(NumberFormat);
          }
          return Ok((builder[colLength..], hashStrLength, v.value));
        case Salt =>
          if saltStrLength < 0 {
            return Err(IllegalArgument);
          }
          if saltStrLength > |builder| {
            return Err(IndexOutOfBounds);
          }
          saltStr := builder[..saltStrLength];
          salt := decode(saltStr);
          return Ok((builder[saltStrLength..], hashStrLength, saltStrLength));
      }
    }
  }

  // ---------------------------------------------------------------------------
  // pbkdf2, createHash, verifyPassword
  // ---------------------------------------------------------------------------

  /** A Java int: x reduced to 32 bits, two's complement. */
  function Int32(x: int): (r: int)
    ensures Int32Min <= r <= Int32Max
    ensures Int32Min <= x <= Int32Max ==> r == x
    ensures (r - x) % 0x1_0000_0000 == 0
  {
    var m := x % 0x1_0000_0000;
    if m > Int32Max then m - 0x1_0000_0000 else m
  }

  /**
   * pbkdf2 (DeriveKey here): the key specification takes bytes * 8 bits in a Java int and refuses an empty
   * salt or a non-positive count or length; the library is asked for "PBKDF2WithHmac" +
   * the algorithm. Every failure is an IllegalArgumentException.
   */
  function DeriveKey(kdf: Kdf, algorithm: string, password: string, salt: seq<byte>, iterations: int, bytes: int)
    : (r: Result<seq<byte>, JavaError>)
    ensures r.Err? ==> r.error == IllegalArgument
    ensures r.Ok? ==> |salt| > 0 && iterations > 0 && Int32(bytes * 8) > 0
    ensures 0 < bytes * 8 <= Int32Max && |salt| > 0 && iterations > 0 ==>
              (r.Ok? <==> kdf(Pbkdf2Algorithm + algorithm, password, salt, iterations, bytes).Some?)
    ensures HonoursLength(kdf) && r.Ok? && 0 <= bytes * 8 <= Int32Max ==> |r.value| == bytes
  {
    var keyLength := Int32(bytes * 8);
    assert 0 < bytes * 8 <= Int32Max ==> keyLength / 8 == bytes;
    if |salt| == 0 || iterations <= 0 || keyLength <= 0 then Err(IllegalArgument)
    else
      match kdf(Pbkdf2Algorithm + algorithm, password, salt, iterations, keyLength / 8)
      case None => Err(IllegalArgument)
      case Some(key) => Ok(key)
  }

  /** The fields createHash stores for a key and a salt. */
  function CreatedFields(key: seq<byte>, salt: seq<byte>): HashFields {
    HashFields(HashAlgorithm, Pbkdf2Iterations, key, Base64.Encode(key), salt, Base64.Encode(salt))
  }

  /** createHash with the random salt given: the encoding of the new object, or pbkdf2's exception. */
  function Created(kdf: Kdf, password: string, salt: seq<byte>): Result<string, JavaError> {
    match DeriveKey(kdf, HashAlgorithm, password, salt, Pbkdf2Iterations, HashByteSize)
    case Err(e) => Err(e)
    case Ok(key) => Ok(Format(HashSequence, CreatedFields(key, salt)))
  }

  method CreateHash(kdf: Kdf, password: string, salt: seq<byte>) returns (r: Result<string, JavaError>)
    ensures r == Created(kdf, password, salt)
  {
    var hash := DeriveKey(kdf, HashAlgorithm, password, salt, Pbkdf2Iterations, HashByteSize);
    if hash.Err? {
      return Err(hash.error);
    }
    var hashObj := new Hash();
    hashObj.SetHashAlgorithm(HashAlgorithm);
    hashObj.SetPbkdf2Iterations(Pbkdf2Iterations);
    hashObj.SetHash(hash.value);
    hashObj.SetSalt(salt);
    var s := hashObj.ToString();
    return Ok(s);
  }

  /**
   * verifyPassword: the exception Hash(String) throws, or a derivation with the stored
   * name, salt, count and the stored hash's length, compared with the stored hash.
   */
  function Verified(kdf: Kdf, decode: Base64.Decoder, password: string, correctHash: string): Verification<JavaError> {
    match Parse(correctHash, decode)
    case Err(e) => Verification(Err(e), None)
    case Ok(f) =>
      var call := KdfCall(f.algorithm, f.salt, f.iterations, |f.hash|);
      match DeriveKey(kdf, f.algorithm, password, f.salt, f.iterations, |f.hash|)
      case Err(e) => Verification(Err(e), Some(call))
      case Ok(testHash) => Verification(Ok(testHash == f.hash), Some(call))
  }

  method VerifyPassword(kdf: Kdf, decode: Base64.Decoder, password: string, correctHash: string)
    returns (r: Verification<JavaError>)
    ensures r == Verified(kdf, decode, password, correctHash)
  {
    var parsed := Hash.FromString(correctHash, decode);
    if parsed.Err? {
      return Verification(Err(parsed.error), None);
    }
    var hash := parsed.value;
    var call := KdfCall(hash.hashAlgorithm, hash.salt, hash.pbkdf2Iterations, |hash.hash|);
    var testHash := DeriveKey(kdf, hash.hashAlgorithm, password, hash.salt, hash.pbkdf2Iterations, |hash.hash|);
    if testHash.Err? {
      return Verification(Err(testHash.error), Some(call));
    }
    var equal := ConstantTime.SlowEquals(hash.hash, testHash.value);
    return Verification(Ok(equal), Some(call));
  }

  /** What createHash writes is within what Hash(String) reads back. */
  lemma CreatedEncodable(key: seq<byte>, salt: seq<byte>)
    requires |key| < 700 && |salt| < 700
    ensures Encodable(CreatedFields(key, salt))
  {
  }

  /**
   * A hash made for a password verifies that password, with the parameters createHash
   * used, when the decoder reads canonical base64 back and the library keeps its lengths.
   */
  lemma CreateThenVerify(kdf: Kdf, decode: Base64.Decoder, password: string, salt: seq<byte>)
    requires Base64.DecodesEncodings(decode) && HonoursLength(kdf)
    requires |salt| == SaltByteSize && Created(kdf, password, salt).Ok?
    ensures Verified(kdf, decode, password, Created(kdf, password, salt).value)
            == Verification(Ok(true), Some(KdfCall(HashAlgorithm, salt, Pbkdf2Iterations, HashByteSize)))
  {
    var key := DeriveKey(kdf, HashAlgorithm, password, salt, Pbkdf2Iterations, HashByteSize).value;
    var h := CreatedFields(key, salt);
    CreatedEncodable(key, salt);
    ParseOfFormat(h, decode);
    assert Reread(h, decode) == h;
  }

  /** Every proper prefix of a created hash is rejected before any derivation. */
  lemma TruncatedHashRejected(kdf: Kdf, decode: Base64.Decoder, password: string, salt: seq<byte>, n: nat)
    requires HonoursLength(kdf) && |salt| == SaltByteSize && Created(kdf, password, salt).Ok?
    requires n < |Created(kdf, password, salt).value|
    ensures Verified(kdf, decode, password, Created(kdf, password, salt).value[..n])
            == Verification(Err(IndexOutOfBounds), None)
  {
    var key := DeriveKey(kdf, HashAlgorithm, password, salt, Pbkdf2Iterations, HashByteSize).value;
    CreatedEncodable(key, salt);
    TruncatedFails(CreatedFields(key, salt), n, decode);
  }
}
