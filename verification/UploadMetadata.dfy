/** The Upload-Metadata header: parseUploadMetadata of internal/server/tus.go against the
    "key base64" lists that clients print. */
module UploadMetadata {
  import opened Strings
  import opened Base64
  import PasswordHash

  datatype Pair = Pair(key: string, value: Bytes)

  function TrimLeft(s: string): string {
    if s != "" && IsSpace(s[0]) then TrimLeft(s[1..]) else s
  }

  function TrimRight(s: string): string {
    if s != "" && IsSpace(s[|s|-1]) then TrimRight(s[..|s|-1]) else s
  }

  /** strings.TrimSpace. */
  function TrimSpace(s: string): string { TrimRight(TrimLeft(s)) }

  /** The pair one list element stands for, if any. */
  function EntryOf(element: string): Option<Pair> {
    var part := TrimSpace(element);
    if part == "" then None
    else
      match PasswordHash.Cut(part, ' ')
      case None => None
      case Some((key, encoded)) =>
        if key == "" then None
        else
          match Decode(encoded, true)
          case Some(v) => Some(Pair(key, v))
          case None =>
            match Decode(encoded, false)
            case Some(v) => Some(Pair(key, v))
            case None => None
  }

  predicate AllSpace(s: string) { forall i :: 0 <= i < |s| ==> IsSpace(s[i]) }

  lemma {:induction false} TrimLeftIs(s: string)
    ensures |TrimLeft(s)| <= |s| && s[|s|-|TrimLeft(s)|..] == TrimLeft(s) && AllSpace(s[..|s|-|TrimLeft(s)|])
    ensures TrimLeft(s) != "" ==> !IsSpace(TrimLeft(s)[0])
  {
    if s != "" && IsSpace(s[0]) {
      TrimLeftIs(s[1..]);
      var n := |s| - |TrimLeft(s)|;
      assert s[..n] == [s[0]] + s[1..][..n-1];
    }
  }

  lemma {:induction false} TrimRightIs(s: string)
    ensures |TrimRight(s)| <= |s| && s[..|TrimRight(s)|] == TrimRight(s) && AllSpace(s[|TrimRight(s)|..])
    ensures TrimRight(s) != "" ==> !IsSpace(TrimRight(s)[|TrimRight(s)|-1]) && TrimRight(s)[0] == s[0]
  {
    if s != "" && IsSpace(s[|s|-1]) {
      var front := s[..|s|-1];
      TrimRightIs(front);
      var n := |TrimRight(s)|;
      assert s[n..] == front[n..] + [s[|s|-1]];
    }
  }

  /** TrimSpace drops white space at both ends and nothing else. */
  lemma TrimSpaceIs(s: string)
    ensures exists left, right :: AllSpace(left) && AllSpace(right) && s == left + TrimSpace(s) + right
    ensures TrimSpace(s) != "" ==> !IsSpace(TrimSpace(s)[0]) && !IsSpace(TrimSpace(s)[|TrimSpace(s)|-1])
  {
    TrimLeftIs(s);
    var t := TrimLeft(s);
    TrimRightIs(t);
    var left, right := s[..|s|-|t|], t[|TrimRight(t)|..];
    assert s == left + TrimSpace(s) + right;
  }

  /** A list element is a pair exactly when, trimmed, it is a non-empty key, a space, and padded base64
      or else raw base64 of the value. */
  lemma EntryOfIff(element: string, p: Pair)
    ensures EntryOf(element) == Some(p) <==>
            && p.key != "" && ' ' !in p.key
            && exists text :: TrimSpace(element) == p.key + [' '] + text &&
                 (|| Decode(text, true) == Some(p.value)
                  || (Decode(text, true).None? && Decode(text, false) == Some(p.value)))
  {
    var part := TrimSpace(element);
    if EntryOf(element) == Some(p) {
      var (key, text) := PasswordHash.Cut(part, ' ').value;
      PasswordHash.CutIff(part, ' ', key, text);
    }
    if ' ' !in p.key {
      forall text | part == p.key + [' '] + text ensures PasswordHash.Cut(part, ' ') == Some((p.key, text)) {
        PasswordHash.CutIff(part, ' ', p.key, text);
      }
    }
  }

  function Add(meta: map<string, Bytes>, e: Option<Pair>): map<string, Bytes> {
    if e.None? then meta else meta[e.value.key := e.value.value]
  }

  function MetaFrom(meta: map<string, Bytes>, elements: seq<string>): map<string, Bytes>
    decreases |elements|
  {
    if elements == [] then meta else MetaFrom(Add(meta, EntryOf(elements[0])), elements[1..])
  }

  function Parsed(header: string): map<string, Bytes> { MetaFrom(map[], Split(header, ',')) }

  /** Pairs a client may send: usable keys, each once. */
  predicate Sendable(pairs: seq<Pair>) {
    DistinctKeys(pairs) && forall i :: 0 <= i < |pairs| ==> KeyOk(pairs[i].key)
  }

  /** The metadata are exactly the pairs whose value is not empty. */
  ghost predicate HoldsNonEmpty(metadata: map<string, Bytes>, pairs: seq<Pair>) {
    && (forall i :: 0 <= i < |pairs| && pairs[i].value != [] ==>
          pairs[i].key in metadata && metadata[pairs[i].key] == pairs[i].value)
    && (forall k :: k in metadata ==> exists i :: 0 <= i < |pairs| && pairs[i].key == k && pairs[i].value != [])
  }

  /** parseUploadMetadata. What a client prints comes back as the pairs whose value is not empty. */
  method ParseUploadMetadata(header: string) returns (metadata: map<string, Bytes>)
    ensures metadata == Parsed(header)
    ensures forall pairs :: Sendable(pairs) && header == Print(pairs) ==> HoldsNonEmpty(metadata, pairs)
  {
    forall pairs | Sendable(pairs) && header == Print(pairs) ensures HoldsNonEmpty(Parsed(header), pairs) {
      ReadsNonEmpty(pairs);
    }
    metadata := map[];
    var parts := Split(header, ',');
    var i := 0;
    while i < |parts|
      invariant 0 <= i <= |parts|
      invariant MetaFrom(map[], parts) == MetaFrom(metadata, parts[i..])
    {
      assert parts[i..][0] == parts[i] && parts[i..][1..] == parts[i+1..];
      var e := EntryOf(parts[i]);
      if e.Some? { metadata := metadata[e.value.key := e.value.value]; }
      i := i + 1;
    }
    assert parts[i..] == [];
  }

  // ---------------------------------------------------------------- printing

  /** A key a client may use: not empty, no white space, no comma. */
  predicate KeyOk(key: string) {
    key != "" && ',' !in key && forall c :: c in key ==> !IsSpace(c)
  }

  function PrintPair(p: Pair): string { p.key + " " + Encode(p.value, true) }

  function PrintAll(pairs: seq<Pair>): seq<string> { seq(|pairs|, i requires 0 <= i < |pairs| => PrintPair(pairs[i])) }

  /** The header. */
  function Print(pairs: seq<Pair>): string { Join(PrintAll(pairs), ',') }

  predicate DistinctKeys(pairs: seq<Pair>) {
    forall i, j :: 0 <= i < j < |pairs| ==> pairs[i].key != pairs[j].key
  }

  // ---------------------------------------------------------------- round trip

  lemma TrimNothing(s: string)
    requires s != "" && !IsSpace(s[0]) && !IsSpace(s[|s|-1])
    ensures TrimSpace(s) == s
  {}

  lemma TrimOneSpace(key: string)
    requires KeyOk(key)
    ensures TrimSpace(key + " ") == key
  {
    var s := key + " ";
    assert key[0] in key && key[|key|-1] in key;
    assert s[0] == key[0] && s[|s|-1] == ' ' && s[..|s|-1] == key;
    assert TrimLeft(s) == s;
    assert TrimRight(s) == TrimRight(key) == key;
  }

  /** One printed pair is read back, unless its value is empty: "key " is trimmed to "key", which has
      no space to cut at, and is dropped. */
  lemma EntryOfPrinted(p: Pair)
    requires KeyOk(p.key)
    ensures EntryOf(PrintPair(p)) == if p.value == [] then None else Some(p)
  {
    var s, e := PrintPair(p), Encode(p.value, true);
    EncodedAlphabet(p.value, true);
    assert p.key[0] in p.key;
    assert s[0] == p.key[0];
    if p.value == [] {
      assert e == "" && s == p.key + " ";
      TrimOneSpace(p.key);
      NoCut(p.key, ' ');
    } else {
      assert e[|e|-1] in e && s[|s|-1] == e[|e|-1];
      DigitsAreNotSpace(e[|e|-1]);
      TrimNothing(s);
      PasswordHash.CutAt(p.key, ' ', e);
      assert p.key + [' '] + e == s;
      RoundTrip(p.value, true);
    }
  }

  /** A client that leaves out the padding is understood as well. */
  lemma RawEntryIsRead(p: Pair)
    requires KeyOk(p.key) && p.value != []
    ensures EntryOf(p.key + " " + Encode(p.value, false)) == Some(p)
  {
    var e := Encode(p.value, false);
    var s := p.key + " " + e;
    EncodedAlphabet(p.value, false);
    assert p.key[0] in p.key && s[0] == p.key[0];
    assert e[|e|-1] in e && s[|s|-1] == e[|e|-1];
    DigitsAreNotSpace(e[|e|-1]);
    TrimNothing(s);
    RoundTrip(p.value, false);
    RawAsPadded(p.value);
    assert p.key + [' '] + e == s;
    assert IsSpace(' ') && ' ' !in p.key;
    EntryOfIff(s, p);
  }

  lemma DigitsAreNotSpace(c: char)
    requires ValueOf(c).Some? || c == '='
    ensures !IsSpace(c) && c != ','
  {}

  lemma {:induction false} NoCut(s: string, sep: char)
    requires sep !in s
    ensures PasswordHash.Cut(s, sep).None?
  {
    if s != "" {
      assert s[0] in s;
      NoCut(s[1..], sep);
    }
  }

  lemma PrintedElements(pairs: seq<Pair>)
    requires pairs != [] && forall i :: 0 <= i < |pairs| ==> KeyOk(pairs[i].key)
    ensures Split(Print(pairs), ',') == PrintAll(pairs)
  {
    forall i | 0 <= i < |pairs| ensures ',' !in PrintAll(pairs)[i] {
      EncodedAlphabet(pairs[i].value, true);
      forall c | c in Encode(pairs[i].value, true) ensures c != ',' { DigitsAreNotSpace(c); }
    }
    SplitJoin(PrintAll(pairs), ',');
  }

  function With(meta: map<string, Bytes>, p: Pair): map<string, Bytes> {
    if p.value == [] then meta else meta[p.key := p.value]
  }

  lemma ReadFirst(meta: map<string, Bytes>, pairs: seq<Pair>)
    requires pairs != [] && KeyOk(pairs[0].key)
    ensures MetaFrom(meta, PrintAll(pairs)) == MetaFrom(With(meta, pairs[0]), PrintAll(pairs[1..]))
  {
    var all := PrintAll(pairs);
    assert all[0] == PrintPair(pairs[0]) && all[1..] == PrintAll(pairs[1..]);
    EntryOfPrinted(pairs[0]);
  }

  lemma {:induction false} Unmentioned(meta: map<string, Bytes>, pairs: seq<Pair>, k: string)
    requires forall i :: 0 <= i < |pairs| ==> KeyOk(pairs[i].key) && pairs[i].key != k
    ensures var m := MetaFrom(meta, PrintAll(pairs)); (k in m <==> k in meta) && (k in m ==> m[k] == meta[k])
    decreases |pairs|
  {
    if pairs == [] {
      assert PrintAll(pairs) == [];
    } else {
      ReadFirst(meta, pairs);
      Unmentioned(With(meta, pairs[0]), pairs[1..], k);
    }
  }

  /** What reading the printed elements makes of one pair. */
  lemma {:induction false} ReadAt(meta: map<string, Bytes>, pairs: seq<Pair>, i: nat)
    requires DistinctKeys(pairs) && forall j :: 0 <= j < |pairs| ==> KeyOk(pairs[j].key)
    requires i < |pairs| && pairs[i].key !in meta
    ensures var m := MetaFrom(meta, PrintAll(pairs)); var k := pairs[i].key;
            (k in m <==> pairs[i].value != []) && (k in m ==> m[k] == pairs[i].value)
    decreases |pairs|
  {
    var p, rest := pairs[0], pairs[1..];
    ReadFirst(meta, pairs);
    if i == 0 {
      Unmentioned(With(meta, p), rest, p.key);
    } else {
      assert rest[i-1] == pairs[i] && pairs[i].key != p.key;
      assert pairs[i].key !in With(meta, p);
      assert DistinctKeys(rest);
      ReadAt(With(meta, p), rest, i - 1);
    }
  }

  /** The header is read back as exactly the pairs whose value is not empty. */
  lemma ReadsNonEmpty(pairs: seq<Pair>)
    requires Sendable(pairs)
    ensures HoldsNonEmpty(Parsed(Print(pairs)), pairs)
  {
    if pairs == [] {
      assert Print(pairs) == "" && Split("", ',') == [""];
      assert TrimSpace("") == "";
      assert [""][1..] == [];
    } else {
      PrintedElements(pairs);
      forall i | 0 <= i < |pairs|
        ensures pairs[i].key in Parsed(Print(pairs)) <==> pairs[i].value != []
        ensures pairs[i].value != [] ==> Parsed(Print(pairs))[pairs[i].key] == pairs[i].value
      {
        ReadAt(map[], pairs, i);
      }
      forall k | k in Parsed(Print(pairs))
        ensures exists i :: 0 <= i < |pairs| && pairs[i].key == k && pairs[i].value != []
      {
        if forall i :: 0 <= i < |pairs| ==> pairs[i].key != k { Unmentioned(map[], pairs, k); }
      }
    }
  }

  /** Every pair comes back exactly when no value is empty. */
  lemma MetadataRoundTripIff(pairs: seq<Pair>)
    requires Sendable(pairs)
    ensures (forall i :: 0 <= i < |pairs| ==>
               pairs[i].key in Parsed(Print(pairs)) && Parsed(Print(pairs))[pairs[i].key] == pairs[i].value)
       <==> (forall i :: 0 <= i < |pairs| ==> pairs[i].value != [])
  {
    ReadsNonEmpty(pairs);
    forall i | 0 <= i < |pairs| && pairs[i].value == [] ensures pairs[i].key !in Parsed(Print(pairs)) {
      assert forall j :: 0 <= j < |pairs| && pairs[j].key == pairs[i].key ==> j == i;
    }
  }

  /** An upload that names its file "" is read as one that does not name it. */
  lemma EmptyValueIsDropped()
    ensures Parsed(Print([Pair("filename", [])])) == map[]
  {
    var pairs := [Pair("filename", [])];
    assert forall c :: c in "filename" ==> !IsSpace(c) && c != ',';
    assert Sendable(pairs);
    ReadsNonEmpty(pairs);
    assert forall i :: 0 <= i < |pairs| ==> pairs[i].value == [];
  }
}
