/** The encoded password hash: printed by one function, taken apart by the other. The key
    derivation itself is any function that returns as many bytes as it is asked for. */
module Auth {
  import opened Options
  import opened Text
  import opened Decimals
  import opened Base64

  /** password, salt, iterations, memory, threads, key length -> key */
  type Kdf = (seq<Byte>, seq<Byte>, nat, nat, nat, nat) -> seq<Byte>

  ghost predicate Sized(kdf: Kdf) {
    forall p: seq<Byte>, s: seq<Byte>, t: nat, m: nat, threads: nat, n: nat :: |kdf(p, s, t, m, threads, n)| == n
  }

  const MEM_KIB: nat := 19456
  const ITERATIONS: nat := 2
  const THREADS: nat := 1
  const KEY_LEN: nat := 32
  const ARGON2_VERSION: nat := 19

  function Params(mem: nat, iterations: nat, threads: nat): string {
    "m=" + (Print(mem) + (",t=" + (Print(iterations) + (",p=" + Print(threads)))))
  }

  /** "$argon2id$v=..$m=..,t=..,p=..$salt$key" */
  function Encoded(params: string, salt: seq<Byte>, key: seq<Byte>): string {
    "$" + ("argon2id" + ("$" + (("v=" + Print(ARGON2_VERSION)) + ("$" +
      (params + ("$" + (Encode(salt) + ("$" + Encode(key)))))))))
  }

  function HashPassword(kdf: Kdf, password: seq<Byte>, salt: seq<Byte>): string {
    Encoded(Params(MEM_KIB, ITERATIONS, THREADS), salt, kdf(password, salt, ITERATIONS, MEM_KIB, THREADS, KEY_LEN))
  }

  // ---------- reading it ----------

  const INT64_LIMIT: int := 0x8000_0000_0000_0000

  function SkipSpace(s: string): string {
    if s != "" && s[0] != '\n' && IsSpace(s[0]) then SkipSpace(s[1..]) else s
  }

  /** One %d of the scanner: the number and what follows it. */
  function ScanInt(s: string): Option<(int, string)> {
    var t := SkipSpace(s);
    var negative := t != "" && t[0] == '-';
    var digits := if t != "" && (t[0] == '-' || t[0] == '+') then t[1..] else t;
    var n := DigitRun(digits);
    DigitRunIsMaximal(digits);
    if n == 0 then None else
      var m: int := Value(digits[..n]);
      var v := if negative then 0 - m else m;
      if -INT64_LIMIT <= v < INT64_LIMIT then Some((v, digits[n..])) else None
  }

  /** A literal part of the scan format. */
  function Expect(s: string, lit: string): Option<string> {
    if HasPrefix(s, lit) then Some(s[|lit|..]) else None
  }

  function ExpectInt(s: string, lit: string): Option<(int, string)> {
    match Expect(s, lit)
    case None => None
    case Some(rest) => ScanInt(rest)
  }

  /** Sscanf "m=%d,t=%d,p=%d"; anything after the last number is ignored. */
  function ScanParams(s: string): Option<(int, int, int)> {
    match ExpectInt(s, "m=")
    case None => None
    case Some((mem, s1)) =>
      match ExpectInt(s1, ",t=")
      case None => None
      case Some((iterations, s2)) =>
        match ExpectInt(s2, ",p=")
        case None => None
        case Some((threads, _)) => Some((mem, iterations, threads))
  }

  function Truncate(n: nat, limit: nat): nat
    requires limit > 0
  {
    n % limit
  }

  predicate VerifyPassword(kdf: Kdf, encoded: string, password: seq<Byte>) {
    var parts := Split(encoded, '$');
    if |parts| != 6 || parts[1] != "argon2id" || parts[2] != "v=" + Print(ARGON2_VERSION) then false
    else match (ScanParams(parts[3]), Decode(parts[4]), Decode(parts[5]))
      case (Some((mem, iterations, threads)), Some(salt), Some(want)) =>
        if mem <= 0 || iterations <= 0 || threads <= 0 || |salt| == 0 || |want| == 0 then false
        else
          kdf(password, salt, Truncate(iterations, 0x1_0000_0000), Truncate(mem, 0x1_0000_0000),
              Truncate(threads, 0x100), Truncate(|want|, 0x1_0000_0000)) == want
      case _ => false
  }

  // ---------- what was printed is read ----------

  lemma ScanPrinted(n: nat, rest: string)
    requires n < INT64_LIMIT && (rest == "" || !IsDigit(rest[0]))
    ensures ScanInt(Print(n) + rest) == Some((n as int, rest))
  {
    hide Print;
    var s := Print(n) + rest;
    ValueOfPrint(n);
    DigitRunOf(Print(n), rest);
    assert s[0] == Print(n)[0] && IsDigit(s[0]);
    assert SkipSpace(s) == s;
    assert s[..|Print(n)|] == Print(n) && s[|Print(n)|..] == rest;
  }

  lemma ExpectPrinted(lit: string, n: nat, rest: string)
    requires n < INT64_LIMIT && (rest == "" || !IsDigit(rest[0]))
    ensures ExpectInt(lit + (Print(n) + rest), lit) == Some((n as int, rest))
  {
    hide ScanInt;
    var s := lit + (Print(n) + rest);
    assert s[..|lit|] == lit && s[|lit|..] == Print(n) + rest;
    ScanPrinted(n, rest);
  }

  lemma ScanParamsPrinted(mem: nat, iterations: nat, threads: nat)
    requires mem < INT64_LIMIT && iterations < INT64_LIMIT && threads < INT64_LIMIT
    ensures ScanParams(Params(mem, iterations, threads)) == Some((mem as int, iterations as int, threads as int))
  {
    hide ExpectInt, Print;
    assert Print(threads) + "" == Print(threads);
    ExpectPrinted(",p=", threads, "");
    var s2 := ",p=" + Print(threads);
    ExpectPrinted(",t=", iterations, s2);
    ExpectPrinted("m=", mem, ",t=" + (Print(iterations) + s2));
  }

  /** Characters an encoded hash is made of besides the separators. */
  predicate Plain(s: string) {
    forall i :: 0 <= i < |s| ==> s[i] != '$' && s[i] != '\n' && !IsSpace(s[i])
  }

  lemma PlainJoin(a: string, b: string)
    requires Plain(a) && Plain(b)
    ensures Plain(a + b)
  {}

  lemma EncodeIsPlain(bs: seq<Byte>)
    ensures Plain(Encode(bs))
  {
    EncodeUsesAlphabet(bs);
    assert forall i :: 0 <= i < |Encode(bs)| ==> InAlphabet(Encode(bs)[i]);
  }

  lemma PrintIsPlain(n: nat)
    ensures Plain(Print(n))
  {}

  lemma ParamsArePlain(mem: nat, iterations: nat, threads: nat)
    ensures Plain(Params(mem, iterations, threads))
  {
    hide Print;
    PrintIsPlain(mem);
    PrintIsPlain(iterations);
    PrintIsPlain(threads);
  }

  lemma SplitPlain(a: string, rest: string)
    requires Plain(a)
    ensures Split(a + ("$" + rest), '$') == [a] + Split(rest, '$')
  {
    assert a + ("$" + rest) == a + ['$'] + rest;
    SplitAtFirst(a, '$', rest);
  }

  lemma {:induction false} ConstantsPrinted()
    ensures "v=" + Print(ARGON2_VERSION) == "v=19"
    ensures Params(MEM_KIB, ITERATIONS, THREADS) == "m=19456,t=2,p=1"
  {
    assert Print(19) == Print(1) + [Digit(9)] == "19";
    assert Print(194) == Print(19) + [Digit(4)] == "194";
    assert Print(1945) == Print(194) + [Digit(5)] == "1945";
    assert Print(19456) == Print(1945) + [Digit(6)] == "19456";
    assert Print(2) == "2" && Print(1) == "1";
  }

  lemma EncodedSplits(params: string, salt: seq<Byte>, key: seq<Byte>)
    requires Plain(params)
    ensures Split(Encoded(params, salt, key), '$') == ["", "argon2id", "v=19", params, Encode(salt), Encode(key)]
  {
    hide Split, Print, Encode, Plain;
    EncodeIsPlain(salt);
    EncodeIsPlain(key);
    VersionIsPlain();
    ConstantsPrinted();
    PlainIsFree(Encode(key));
    SplitOfFree(Encode(key), '$');
    var r5 := Encode(salt) + ("$" + Encode(key));
    SplitPlain(Encode(salt), Encode(key));
    var r4 := params + ("$" + r5);
    SplitPlain(params, r5);
    var r3 := ("v=" + Print(ARGON2_VERSION)) + ("$" + r4);
    SplitPlain("v=" + Print(ARGON2_VERSION), r4);
    var r2 := "argon2id" + ("$" + r3);
    SplitPlain("argon2id", r3);
    SplitPlain("", r2);
    assert "" + ("$" + r2) == Encoded(params, salt, key);
  }

  lemma VersionIsPlain()
    ensures Plain("v=" + Print(ARGON2_VERSION)) && Plain("argon2id") && Plain("")
  {
    PrintIsPlain(ARGON2_VERSION);
    PlainJoin("v=", Print(ARGON2_VERSION));
  }

  lemma PlainIsFree(s: string)
    requires Plain(s)
    ensures Free(s, '$')
  {}

  /** A hash is checked under the parameters it carries, whatever they are: an attempt verifies
      exactly when all of them, the salt and the key are there and it derives the key with the
      parameters cut to their machine widths. */
  lemma VerifiesUnderItsOwnParameters(kdf: Kdf, mem: nat, iterations: nat, threads: nat,
                                      salt: seq<Byte>, key: seq<Byte>, attempt: seq<Byte>)
    requires mem < INT64_LIMIT && iterations < INT64_LIMIT && threads < INT64_LIMIT
    ensures VerifyPassword(kdf, Encoded(Params(mem, iterations, threads), salt, key), attempt) <==>
            mem > 0 && iterations > 0 && threads > 0 && salt != [] && key != [] &&
            kdf(attempt, salt, iterations % 0x1_0000_0000, mem % 0x1_0000_0000, threads % 0x100, |key| % 0x1_0000_0000) == key
  {
    hide Split, Print, Params, Encode, Decode, ScanParams, Encoded, Plain;
    ParamsArePlain(mem, iterations, threads);
    EncodedSplits(Params(mem, iterations, threads), salt, key);
    ScanParamsPrinted(mem, iterations, threads);
    ConstantsPrinted();
    EncodeReadsBack(salt);
    EncodeReadsBack(key);
  }

  /** A password verifies against its own hash exactly when it derives the same key: always the
      one that was hashed, and no other unless the derivation collides. */
  lemma VerifiesExactlyEqualKeys(kdf: Kdf, password: seq<Byte>, salt: seq<Byte>, attempt: seq<Byte>)
    requires Sized(kdf) && |salt| > 0
    ensures VerifyPassword(kdf, HashPassword(kdf, password, salt), attempt) <==>
            kdf(attempt, salt, 2, 19456, 1, 32) == kdf(password, salt, 2, 19456, 1, 32)
  {
    hide Encoded, VerifyPassword, Params;
    var key := kdf(password, salt, ITERATIONS, MEM_KIB, THREADS, KEY_LEN);
    assert |key| == KEY_LEN;
    VerifiesUnderItsOwnParameters(kdf, MEM_KIB, ITERATIONS, THREADS, salt, key, attempt);
  }

  /** Nothing verifies against a text that is not an encoded hash of this version: six parts
      between dollar signs, of which the last three read as positive parameters, a salt and a
      key. */
  lemma AcceptedIsWellFormed(kdf: Kdf, encoded: string, attempt: seq<Byte>)
    returns (lead: string, params: string, salt: string, key: string)
    requires VerifyPassword(kdf, encoded, attempt)
    ensures encoded == lead + "$argon2id$v=19$" + params + "$" + salt + "$" + key
    ensures Free(lead, '$') && Free(params, '$') && Free(salt, '$') && Free(key, '$')
    ensures ScanParams(params).Some? && Decode(salt).Some? && Decode(key).Some?
    ensures var (mem, iterations, threads) := ScanParams(params).value;
            mem > 0 && iterations > 0 && threads > 0 && Decode(salt).value != [] && Decode(key).value != []
  {
    hide Split, Print, Decode, ScanParams, Join;
    var parts := Split(encoded, '$');
    ConstantsPrinted();
    JoinOfSplit(encoded, '$');
    SplitIsFree(encoded, '$');
    lead, params, salt, key := parts[0], parts[3], parts[4], parts[5];
    assert Free(parts[0], '$') && Free(parts[3], '$') && Free(parts[4], '$') && Free(parts[5], '$');
    assert parts == [lead, "argon2id", "v=19", params, salt, key];
    JoinSix(lead, "argon2id", "v=19", params, salt, key);
    assert "$" + "argon2id" + "$" + "v=19" + "$" == "$argon2id$v=19$";
  }

  lemma JoinSix(a: string, b: string, c: string, d: string, e: string, f: string)
    ensures Join([a, b, c, d, e, f], '$') == a + ("$" + b + "$" + c + "$") + d + "$" + e + "$" + f
  {
    hide Join;
    JoinOne(f, '$');
    JoinCons(e, [f], '$');
    JoinCons(d, [e, f], '$');
    JoinCons(c, [d, e, f], '$');
    JoinCons(b, [c, d, e, f], '$');
    JoinCons(a, [b, c, d, e, f], '$');
    assert [e] + [f] == [e, f] && [d] + [e, f] == [d, e, f] && [c] + [d, e, f] == [c, d, e, f];
    assert [b] + [c, d, e, f] == [b, c, d, e, f] && [a] + [b, c, d, e, f] == [a, b, c, d, e, f];
  }
}
