/** Stored password hashes: HashPassword, VerifyPassword and parsePHC of internal/auth/password.go.
    Argon2id is a parameter. */
module PasswordHash {
  import opened Strings
  import opened Base64

  datatype Params = Params(memory: nat, iterations: nat, parallelism: nat)

  datatype Hash = Hash(params: Params, salt: Bytes, key: Bytes)

  /** argon2.IDKey(password, salt, params, keyLen). */
  type Kdf = (string, Bytes, Params, nat) -> Bytes

  datatype Verdict = Accepted | InvalidHash | Mismatch

  const DEFAULTS: Params := Params(64 * 1024, 3, 4)
  const KEY_LEN: nat := 32

  /** What the uint32 and uint8 fields can hold, zero excluded. */
  predicate Usable(p: Params) {
    0 < p.memory < 0x1_0000_0000 && 0 < p.iterations < 0x1_0000_0000 && 0 < p.parallelism < 256
  }

  function PrintParams(p: Params): string {
    "m=" + Itoa(p.memory) + ",t=" + Itoa(p.iterations) + ",p=" + Itoa(p.parallelism)
  }

  /** The PHC string. */
  function Print(h: Hash): string {
    "$argon2id$v=19$" + PrintParams(h.params) + "$" + Encode(h.salt, false) + "$" + Encode(h.key, false)
  }

  /** strings.Cut at a one-byte separator. */
  function Cut(s: string, sep: char): Option<(string, string)> {
    if s == "" then None
    else if s[0] == sep then Some(("", s[1..]))
    else
      match Cut(s[1..], sep)
      case None => None
      case Some((before, after)) => Some(([s[0]] + before, after))
  }

  lemma {:induction false} CutSplits(s: string, sep: char)
    ensures Cut(s, sep).Some? ==>
              var (before, after) := Cut(s, sep).value; sep !in before && s == before + [sep] + after
  {
    if s != "" {
      CutSplits(s[1..], sep);
      assert s == [s[0]] + s[1..];
    }
  }

  /** Cut finds the first separator. */
  lemma CutIff(s: string, sep: char, before: string, after: string)
    ensures Cut(s, sep) == Some((before, after)) <==> sep !in before && s == before + [sep] + after
  {
    CutSplits(s, sep);
    if sep !in before { CutAt(before, sep, after); }
  }

  /** strconv.ParseUint(s, 10, 32). */
  function ParseUint32(s: string): Option<nat> {
    if s != "" && (forall c :: c in s ==> IsDigit(c)) && Value(s) < 0x1_0000_0000 then Some(Value(s)) else None
  }

  /** One turn of the parameter loop. */
  function SetParam(p: Params, part: string): Option<Params> {
    match Cut(part, '=')
    case None => None
    case Some((key, value)) =>
      match ParseUint32(value)
      case None => None
      case Some(n) =>
        if key == "m" then Some(p.(memory := n))
        else if key == "t" then Some(p.(iterations := n))
        else if key == "p" then (if n > 255 then None else Some(p.(parallelism := n)))
        else None
  }

  function ParamsFrom(p: Params, parts: seq<string>): Option<Params>
    decreases |parts|
  {
    if parts == [] then Some(p)
    else
      match SetParam(p, parts[0])
      case None => None
      case Some(q) => ParamsFrom(q, parts[1..])
  }

  /** What parsePHC accepts, and as what. */
  function Parsed(encoded: string): Option<Hash> {
    var parts := Split(encoded, '$');
    if |parts| != 6 || parts[1] != "argon2id" || parts[2] != "v=19" then None
    else
      match ParamsFrom(Params(0, 0, 0), Split(parts[3], ','))
      case None => None
      case Some(p) =>
        if p.memory == 0 || p.iterations == 0 || p.parallelism == 0 then None
        else
          match (Decode(parts[4], false), Decode(parts[5], false))
          case (Some(salt), Some(key)) => Some(Hash(p, salt, key))
          case _ => None
  }

  lemma SetParamFits(p: Params, part: string)
    requires Fits(p)
    ensures SetParam(p, part).Some? ==> Fits(SetParam(p, part).value)
  {}

  predicate Fits(p: Params) {
    p.memory < 0x1_0000_0000 && p.iterations < 0x1_0000_0000 && p.parallelism < 256
  }

  lemma {:induction false} ParamsFit(p: Params, parts: seq<string>)
    requires Fits(p)
    ensures ParamsFrom(p, parts).Some? ==> Fits(ParamsFrom(p, parts).value)
    decreases |parts|
  {
    if parts != [] {
      SetParamFits(p, parts[0]);
      if SetParam(p, parts[0]).Some? { ParamsFit(SetParam(p, parts[0]).value, parts[1..]); }
    }
  }

  /** One setting: a known name, "=", and a decimal number that fits its field. */
  predicate Sets(p: Params, part: string, name: string, digits: string, q: Params) {
    && part == name + ['='] + digits && '=' !in name
    && digits != "" && (forall c :: c in digits ==> IsDigit(c)) && Value(digits) < 0x1_0000_0000
    && (|| (name == "m" && q == p.(memory := Value(digits)))
        || (name == "t" && q == p.(iterations := Value(digits)))
        || (name == "p" && Value(digits) <= 255 && q == p.(parallelism := Value(digits))))
  }

  lemma SetParamIff(p: Params, part: string, q: Params)
    ensures SetParam(p, part) == Some(q) <==> exists name, digits :: Sets(p, part, name, digits, q)
  {
    if SetParam(p, part) == Some(q) {
      var (name, digits) := Cut(part, '=').value;
      CutIff(part, '=', name, digits);
      assert Sets(p, part, name, digits, q);
    }
    forall name, digits | Sets(p, part, name, digits, q) ensures SetParam(p, part) == Some(q) {
      CutIff(part, '=', name, digits);
    }
  }

  /** A string is read as a hash exactly when its six parts are what they should be: the algorithm, the
      version, settings that end usable, and raw base64 of salt and key. */
  lemma ParsedIff(encoded: string, h: Hash)
    ensures var parts := Split(encoded, '$');
            Parsed(encoded) == Some(h) <==>
              && |parts| == 6 && parts[1] == "argon2id" && parts[2] == "v=19"
              && ParamsFrom(Params(0, 0, 0), Split(parts[3], ',')) == Some(h.params) && Usable(h.params)
              && Decode(parts[4], false) == Some(h.salt) && Decode(parts[5], false) == Some(h.key)
  {
    var parts := Split(encoded, '$');
    if |parts| == 6 { ParamsFit(Params(0, 0, 0), Split(parts[3], ',')); }
  }

  /** parsePHC. A printed hash comes back whole, or not at all when its parameters are unusable. */
  method ParsePHC(encoded: string) returns (r: Option<Hash>)
    ensures r == Parsed(encoded)
    ensures forall h :: encoded == Print(h) ==> r == if Usable(h.params) then Some(h) else None
  {
    forall h | encoded == Print(h) ensures Parsed(encoded) == if Usable(h.params) then Some(h) else None {
      ParseUndoesPrintIff(h);
    }
    var parts := Split(encoded, '$');
    if |parts| != 6 || parts[1] != "argon2id" || parts[2] != "v=19" { return None; }
    var params := Params(0, 0, 0);
    var settings := Split(parts[3], ',');
    var i := 0;
    while i < |settings|
      invariant 0 <= i <= |settings|
      invariant ParamsFrom(Params(0, 0, 0), settings) == ParamsFrom(params, settings[i..])
    {
      var next := SetParam(params, settings[i]);
      assert settings[i..][0] == settings[i] && settings[i..][1..] == settings[i+1..];
      if next.None? { return None; }
      params := next.value;
      i := i + 1;
    }
    assert settings[i..] == [];
    if params.memory == 0 || params.iterations == 0 || params.parallelism == 0 { return None; }
    var salt := Decode(parts[4], false);
    if salt.None? { return None; }
    var key := Decode(parts[5], false);
    if key.None? { return None; }
    return Some(Hash(params, salt.value, key.value));
  }

  // ---------------------------------------------------------------- parsing undoes printing

  lemma {:induction false} CutAt(before: string, sep: char, after: string)
    requires sep !in before
    ensures Cut(before + [sep] + after, sep) == Some((before, after))
  {
    var s := before + [sep] + after;
    if before == "" {
      assert s[1..] == after;
    } else {
      assert s[0] == before[0] && s[0] in before;
      assert s[1..] == before[1..] + [sep] + after;
      CutAt(before[1..], sep, after);
      assert before == [before[0]] + before[1..];
    }
  }

  /** A printed number is read back exactly when it fits 32 bits. */
  lemma ReadBack(n: nat)
    ensures ParseUint32(Itoa(n)) == if n < 0x1_0000_0000 then Some(n) else None
  {
    ValueOfItoa(n);
  }

  lemma SettingOf(p: Params, name: string, n: nat)
    requires '=' !in name
    ensures SetParam(p, name + "=" + Itoa(n)) ==
            if n >= 0x1_0000_0000 then None
            else if name == "m" then Some(p.(memory := n))
            else if name == "t" then Some(p.(iterations := n))
            else if name == "p" && n <= 255 then Some(p.(parallelism := n))
            else None
  {
    CutAt(name, '=', Itoa(n));
    assert name + ['='] + Itoa(n) == name + "=" + Itoa(n);
    ReadBack(n);
  }

  lemma ParamsRoundTrip(p: Params)
    ensures ParamsFrom(Params(0, 0, 0), Split(PrintParams(p), ',')) ==
            if p.memory < 0x1_0000_0000 && p.iterations < 0x1_0000_0000 && p.parallelism < 256 then Some(p) else None
  {
    var a, b, c := "m=" + Itoa(p.memory), "t=" + Itoa(p.iterations), "p=" + Itoa(p.parallelism);
    PrintedSettings(p);
    ThreeSettings(Params(0, 0, 0), a, b, c);
    MemorySetting(p.memory);
    IterationsSetting(p.memory, p.iterations);
    ParallelismSetting(p);
  }

  lemma PrintedSettings(p: Params)
    ensures Split(PrintParams(p), ',') ==
            ["m=" + Itoa(p.memory), "t=" + Itoa(p.iterations), "p=" + Itoa(p.parallelism)]
  {
    var a, b, c := "m=" + Itoa(p.memory), "t=" + Itoa(p.iterations), "p=" + Itoa(p.parallelism);
    assert forall s :: s in [a, b, c] ==> ',' !in s;
    SplitJoin([a, b, c], ',');
    JoinThree(a, b, c);
    assert PrintParams(p) == a + "," + b + "," + c;
  }

  lemma MemorySetting(n: nat)
    ensures SetParam(Params(0, 0, 0), "m=" + Itoa(n)) == if n < 0x1_0000_0000 then Some(Params(n, 0, 0)) else None
  {
    assert "m" + "=" == "m=";
    SettingOf(Params(0, 0, 0), "m", n);
  }

  lemma IterationsSetting(m: nat, n: nat)
    ensures SetParam(Params(m, 0, 0), "t=" + Itoa(n)) == if n < 0x1_0000_0000 then Some(Params(m, n, 0)) else None
  {
    assert "t" + "=" == "t=";
    SettingOf(Params(m, 0, 0), "t", n);
  }

  lemma ParallelismSetting(p: Params)
    ensures SetParam(Params(p.memory, p.iterations, 0), "p=" + Itoa(p.parallelism)) ==
            if p.parallelism < 256 then Some(p) else None
  {
    assert "p" + "=" == "p=";
    SettingOf(Params(p.memory, p.iterations, 0), "p", p.parallelism);
  }

  lemma JoinThree(a: string, b: string, c: string)
    ensures Join([a, b, c], ',') == a + "," + b + "," + c
  {
    assert [a, b, c][1..] == [b, c] && [b, c][1..] == [c];
    assert Join([b, c], ',') == b + "," + c;
  }

  lemma ThreeSettings(p: Params, a: string, b: string, c: string)
    ensures ParamsFrom(p, [a, b, c]) ==
            match SetParam(p, a)
            case None => None
            case Some(q) => (match SetParam(q, b) case None => None case Some(r) => SetParam(r, c))
  {
    assert [a, b, c][1..] == [b, c] && [b, c][1..] == [c];
    forall r { LastSetting(r, c); }
    match SetParam(p, a)
    case None =>
    case Some(q) => assert ParamsFrom(p, [a, b, c]) == ParamsFrom(q, [b, c]);
  }

  lemma LastSetting(p: Params, c: string)
    ensures ParamsFrom(p, [c]) == SetParam(p, c)
  {
    assert [c][1..] == [];
  }

  lemma SixPieces(sep: char, a: string, b: string, c: string, d: string, e: string, f: string)
    requires sep !in a && sep !in b && sep !in c && sep !in d && sep !in e && sep !in f
    ensures Split(a + [sep] + b + [sep] + c + [sep] + d + [sep] + e + [sep] + f, sep) == [a, b, c, d, e, f]
  {
    SplitNoSep(a, sep);
    SplitNoSep(b, sep);
    SplitNoSep(c, sep);
    SplitNoSep(d, sep);
    SplitNoSep(e, sep);
    SplitNoSep(f, sep);
    SplitConcat(a, b, sep);
    SplitConcat(a + [sep] + b, c, sep);
    SplitConcat(a + [sep] + b + [sep] + c, d, sep);
    SplitConcat(a + [sep] + b + [sep] + c + [sep] + d, e, sep);
    SplitConcat(a + [sep] + b + [sep] + c + [sep] + d + [sep] + e, f, sep);
  }

  lemma PrintedHead(p: string, s: string, k: string)
    ensures "$argon2id$v=19$" + p + "$" + s + "$" + k ==
            "" + ['$'] + "argon2id" + ['$'] + "v=19" + ['$'] + p + ['$'] + s + ['$'] + k
  {
    assert "$argon2id$v=19$" == "" + ['$'] + "argon2id" + ['$'] + "v=19" + ['$'];
  }

  lemma PrintedPieces(h: Hash)
    ensures Split(Print(h), '$') ==
            ["", "argon2id", "v=19", PrintParams(h.params), Encode(h.salt, false), Encode(h.key, false)]
  {
    var p, s, k := PrintParams(h.params), Encode(h.salt, false), Encode(h.key, false);
    EncodedAlphabet(h.salt, false);
    EncodedAlphabet(h.key, false);
    assert ValueOf('$').None?;
    PrintedHead(p, s, k);
    SixPieces('$', "", "argon2id", "v=19", p, s, k);
  }

  /** parsePHC recovers the parameters, the salt and the key, for every salt and key, exactly when
      the parameters are usable. */
  lemma ParseUndoesPrintIff(h: Hash)
    ensures Parsed(Print(h)) == (if Usable(h.params) then Some(h) else None)
  {
    PrintedPieces(h);
    ParamsRoundTrip(h.params);
    RoundTrip(h.salt, false);
    RoundTrip(h.key, false);
  }

  // ---------------------------------------------------------------- hashing and verifying

  /** HashPassword with the salt it drew. */
  function HashPassword(password: string, salt: Bytes, kdf: Kdf): string {
    Print(Hash(DEFAULTS, salt, kdf(password, salt, DEFAULTS, KEY_LEN)))
  }

  /** argon2 gives as many bytes as it is asked for. */
  predicate KeyLength(password: string, salt: Bytes, kdf: Kdf) {
    |kdf(password, salt, DEFAULTS, KEY_LEN)| == KEY_LEN
  }

  /** VerifyPassword. Against a stored hash of some password it accepts exactly when both derive the
      same key; a hash that does not parse is told apart from a mismatch. */
  method VerifyPassword(password: string, encoded: string, kdf: Kdf) returns (v: Verdict)
    ensures v == Verified(password, encoded, kdf)
    ensures v.InvalidHash? <==> Parsed(encoded).None?
    ensures forall stored, salt :: encoded == HashPassword(stored, salt, kdf) && KeyLength(stored, salt, kdf) ==>
              v == (if kdf(password, salt, DEFAULTS, KEY_LEN) == kdf(stored, salt, DEFAULTS, KEY_LEN)
                then Accepted else Mismatch)
  {
    forall stored, salt | encoded == HashPassword(stored, salt, kdf) && KeyLength(stored, salt, kdf)
      ensures Verified(password, encoded, kdf) ==
              (if kdf(password, salt, DEFAULTS, KEY_LEN) == kdf(stored, salt, DEFAULTS, KEY_LEN)
                then Accepted else Mismatch)
    {
      VerifyMeansSameKey(stored, password, salt, kdf);
    }
    var parsed := ParsePHC(encoded);
    if parsed.None? { return InvalidHash; }
    var derived := kdf(password, parsed.value.salt, parsed.value.params, |parsed.value.key|);
    if derived != parsed.value.key { return Mismatch; }
    return Accepted;
  }

  function Verified(password: string, encoded: string, kdf: Kdf): Verdict {
    match Parsed(encoded)
    case None => InvalidHash
    case Some(h) => if kdf(password, h.salt, h.params, |h.key|) == h.key then Accepted else Mismatch
  }

  /** Verification accepts a password against a stored hash exactly when both derive the same key. */
  lemma VerifyMeansSameKey(password: string, other: string, salt: Bytes, kdf: Kdf)
    requires KeyLength(password, salt, kdf)
    ensures Verified(other, HashPassword(password, salt, kdf), kdf) ==
            (if kdf(other, salt, DEFAULTS, KEY_LEN) == kdf(password, salt, DEFAULTS, KEY_LEN)
                then Accepted else Mismatch)
  {
    ParseUndoesPrintIff(Hash(DEFAULTS, salt, kdf(password, salt, DEFAULTS, KEY_LEN)));
  }

  lemma DefaultsPrinted()
    ensures PrintParams(DEFAULTS) == "m=65536,t=3,p=4"
  {
    assert Itoa(6) == "6" && Itoa(65) == "65" && Itoa(655) == "655" && Itoa(6553) == "6553" && Itoa(65536) == "65536";
    assert Itoa(3) == "3" && Itoa(4) == "4";
  }

  /** What HashPassword stores: 64 MiB, three passes, four lanes and 32 bytes of key. */
  lemma StoredHash(password: string, salt: Bytes, kdf: Kdf)
    ensures var key := kdf(password, salt, Params(65536, 3, 4), 32);
            HashPassword(password, salt, kdf) ==
            "$argon2id$v=19$" + "m=65536,t=3,p=4" + "$" + Encode(salt, false) + "$" + Encode(key, false)
  {
    DefaultsPrinted();
  }
}
