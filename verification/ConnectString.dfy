/** db_parse_cs: fields of a connect string, carved out of a buffer by writing terminators into it,
    while every look-up goes to an untouched lower-case copy. */
module ConnectString {
  import opened Common

  const MAX_DB_CS_LEN: nat := 256

  // --- Strings in buffers ---

  // The C string at p: the bytes before the next terminator.
  function TextAt(buf: Bytes, p: nat): Bytes
    requires p <= |buf|
    decreases |buf| - p
  {
    if p == |buf| || buf[p] == 0 then [] else [buf[p]] + TextAt(buf, p + 1)
  }

  lemma {:induction false} TextAtIs(buf: Bytes, p: nat, end: nat)
    requires p <= end < |buf| && buf[end] == 0 && forall i | p <= i < end :: buf[i] != 0
    ensures TextAt(buf, p) == buf[p..end]
    decreases end - p
  {
    if p < end {
      TextAtIs(buf, p + 1, end);
      assert buf[p..end] == [buf[p]] + buf[p + 1..end];
    }
  }

  function ToLower(c: Byte): Byte { if 65 <= c <= 90 then c + (97 - 65) else c }

  function Lower(s: Bytes): (r: Bytes)
    ensures |r| == |s| && forall i | 0 <= i < |s| :: r[i] == ToLower(s[i])
  {
    seq(|s|, i requires 0 <= i < |s| => ToLower(s[i]))
  }

  // strlwr: in place, up to the terminator, every byte staying where it is.
  method StrLwr(buf: array<Byte>, ghost n: nat)
    requires n < buf.Length && buf[n] == 0 && forall i | 0 <= i < n :: buf[i] != 0
    modifies buf
    ensures buf[..n] == Lower(old(buf[..n]))
    ensures forall i | n <= i < buf.Length :: buf[i] == old(buf[i])
  {
    var str := 0;
    while buf[str] != 0
      invariant str <= n
      invariant forall i | 0 <= i < str :: buf[i] == ToLower(old(buf[i]))
      invariant forall i | str <= i < buf.Length :: buf[i] == old(buf[i])
      decreases n - str
    {
      if 65 <= buf[str] <= 90 {
        buf[str] := buf[str] + (97 - 65);
      }
      str := str + 1;
    }
  }

  predicate Stands(s: Bytes, pattern: Bytes, i: nat) {
    i + |pattern| <= |s| && s[i..i + |pattern|] == pattern
  }

  // strstr: the first place where the pattern stands.
  function StrStr(s: Bytes, pattern: Bytes, from: nat): (r: Option<nat>)
    requires from <= |s|
    ensures r.Some? ==> from <= r.value && Stands(s, pattern, r.value)
    ensures forall i | from <= i && (r.None? || i < r.value) :: !Stands(s, pattern, i)
    decreases |s| - from
  {
    if from + |pattern| > |s| then None
    else if Stands(s, pattern, from) then Some(from)
    else if from == |s| then None
    else StrStr(s, pattern, from + 1)
  }

  // strchr: the first place of the character.
  function StrChr(s: Bytes, c: Byte, from: nat): (r: Option<nat>)
    requires from <= |s|
    ensures r.Some? ==> from <= r.value < |s| && s[r.value] == c
    ensures forall i | from <= i < |s| && (r.None? || i < r.value) :: s[i] != c
    decreases |s| - from
  {
    if from == |s| then None else if s[from] == c then Some(from) else StrChr(s, c, from + 1)
  }

  // --- Looking a parameter up ---

  datatype Range = Range(pos: nat, len: nat)

  // Behind the name of a parameter, an equals sign and a quote, none of which is looked at.
  function ValuePos(low: Bytes, param: Bytes): Option<nat> {
    match StrStr(low, param, 0)
    case None => None
    case Some(i) => if i == 0 || low[i - 1] != SPACE then None else Some(i + |param| + 2)
  }

  // get_param_value: from there to the next quote.
  function ParamValue(low: Bytes, param: Bytes): (r: Option<Range>)
    ensures r.Some? ==> r.value.pos + r.value.len < |low| && low[r.value.pos + r.value.len] == QUOTE
    ensures r.Some? ==> forall i | r.value.pos <= i < r.value.pos + r.value.len :: low[i] != QUOTE
  {
    match ValuePos(low, param)
    case None => None
    case Some(pos) =>
      if pos > |low| then None else
      match StrChr(low, QUOTE, pos)
      case None => None
      case Some(q) => Some(Range(pos, q - pos))
  }

  // A value that is found and not empty is taken.
  function Taken(str: Bytes, param: Bytes): (r: Option<Range>)
    ensures r.Some? ==> 0 < r.value.len && r.value.pos + r.value.len < |str| && str[r.value.pos + r.value.len] == QUOTE
    ensures r.Some? ==> forall i | r.value.pos <= i < r.value.pos + r.value.len :: str[i] != QUOTE
  {
    match ParamValue(Lower(str), param)
    case Some(r) => if r.len > 0 then Some(r) else None
    case None => None
  }

  const NAME: Bytes := [110, 97, 109, 101]
  const DRIVER: Bytes := [100, 114, 105, 118, 101, 114]
  const SOURCE: Bytes := [115, 111, 117, 114, 99, 101]
  const DBNAME: Bytes := [100, 98] + NAME
  const DBUSR: Bytes := [100, 98, 117, 115, 114]
  const DBPWD: Bytes := [100, 98, 112, 119, 100]
  const DBCHARSET: Bytes := [100, 98, 99, 104, 97, 114, 115, 101, 116]
  const DBFLAG: Bytes := [100, 98, 102, 108, 97, 103]
  const DBSOCKET: Bytes := [100, 98, 115, 111, 99, 107, 101, 116]
  const SLAVEID: Bytes := [115, 108, 97, 118, 101, 105, 100]
  const KEEPALIVE: Bytes := [107, 101, 101, 112, 97, 108, 105, 118, 101]
  const MAXCONN: Bytes := [109, 97, 120, 99, 111, 110, 110]
  const BASECONN: Bytes := [98, 97, 115, 101, 99, 111, 110, 110]
  const COMPRESS: Bytes := [99, 111, 109, 112, 114, 101, 115, 115]
  const YES: Bytes := [121, 101, 115]

  const DEFAULT_FLAG: nat := 0x0003_0000
  const CLIENT_COMPRESS: nat := 32

  // --- What the fields read ---

  // The comma between host and port, where the source is cut.
  function Cut(str: Bytes): (r: Option<nat>)
    ensures r.Some? ==> r.value < |str| && str[r.value] == COMMA
  {
    match Taken(str, SOURCE)
    case None => None
    case Some(r) => StrChr(str[..r.pos + r.len], COMMA, r.pos)
  }

  // The value in its original case, up to the cut if that lies in it.
  function Shown(str: Bytes, r: Range): Bytes
    requires r.pos + r.len <= |str|
  {
    match Cut(str)
    case Some(c) => if r.pos <= c < r.pos + r.len then str[r.pos..c] else str[r.pos..r.pos + r.len]
    case None => str[r.pos..r.pos + r.len]
  }

  // The buffer holds str, with terminators at some of its quotes and perhaps at the cut.
  ghost predicate Carved(buf: Bytes, str: Bytes, nuls: set<nat>) {
    && |buf| == MAX_DB_CS_LEN && |str| < MAX_DB_CS_LEN && buf[|str|] == 0
    && (forall n | n in nuls :: n < |str| && (str[n] == QUOTE || Cut(str) == Some(n)))
    && forall i | 0 <= i < |str| :: buf[i] == if i in nuls then 0 else str[i]
  }

  // Bytes without a terminator among them are still those of str.
  lemma CarvedSlice(buf: Bytes, str: Bytes, nuls: set<nat>, a: nat, b: nat)
    requires NulFree(str) && Carved(buf, str, nuls) && a <= b <= |str| && forall i | a <= i < b :: i !in nuls
    ensures b < |buf| && buf[a..b] == str[a..b] && forall i | a <= i < b :: buf[i] != 0
  {
    forall i | a <= i < b ensures buf[i] == str[i] {}
  }

  // The C string that starts at a and whose terminator is at b.
  lemma CarvedText(buf: Bytes, str: Bytes, nuls: set<nat>, a: nat, b: nat)
    requires NulFree(str) && Carved(buf, str, nuls) && a <= b < |str| && b in nuls
    requires forall i | a <= i < b :: i !in nuls
    ensures a <= |buf| && TextAt(buf, a) == str[a..b]
  {
    CarvedSlice(buf, str, nuls, a, b);
    TextAtIs(buf, a, b);
  }

  // Terminators written for other fields never shorten a value, except the one at the cut.
  lemma FieldReads(buf: Bytes, str: Bytes, nuls: set<nat>, r: Range)
    requires NulFree(str) && Carved(buf, str, nuls) && r.pos + r.len < |str| && r.pos + r.len in nuls
    requires forall i | r.pos <= i < r.pos + r.len :: str[i] != QUOTE
    requires Cut(str).Some? ==> Cut(str).value in nuls
    ensures r.pos <= |buf| && TextAt(buf, r.pos) == Shown(str, r)
  {
    hide Cut;
    var end := if Cut(str).Some? && r.pos <= Cut(str).value < r.pos + r.len then Cut(str).value else r.pos + r.len;
    forall i | r.pos <= i < end ensures i !in nuls {}
    CarvedText(buf, str, nuls, r.pos, end);
  }

  // The text of a value before the cut is made.
  lemma FieldReadsUncut(buf: Bytes, str: Bytes, nuls: set<nat>, r: Range)
    requires NulFree(str) && Carved(buf, str, nuls) && r.pos + r.len < |str| && r.pos + r.len in nuls
    requires forall i | r.pos <= i < r.pos + r.len :: str[i] != QUOTE && i !in nuls
    ensures r.pos <= |buf| && TextAt(buf, r.pos) == str[r.pos..r.pos + r.len]
  {
    hide Carved;
    CarvedText(buf, str, nuls, r.pos, r.pos + r.len);
  }

  // A value that does not overlap the source's reads back whole.
  lemma ApartReadsWhole(str: Bytes, param: Bytes)
    requires Taken(str, param).Some?
    requires Taken(str, SOURCE).Some? ==>
      var r, s := Taken(str, param).value, Taken(str, SOURCE).value;
      r.pos + r.len <= s.pos || s.pos + s.len <= r.pos
    ensures var r := Taken(str, param).value;
      Shown(str, r) == str[r.pos..r.pos + r.len]
  {
  }

  // The source reads up to its first comma.
  lemma SourceReadsToComma(str: Bytes)
    requires Taken(str, SOURCE).Some?
    ensures var r := Taken(str, SOURCE).value;
      var shown := Shown(str, r);
      && (forall i | 0 <= i < |shown| :: shown[i] != COMMA)
      && shown == str[r.pos..r.pos + |shown|]
      && (|shown| < r.len ==> str[r.pos + |shown|] == COMMA)
  {
    hide ParamValue, Lower;
    var r := Taken(str, SOURCE).value;
    var head := str[..r.pos + r.len];
    assert forall i | r.pos <= i < r.pos + r.len :: head[i] == str[i];
  }

  // --- The parser ---

  // Overrun stands for the runs that leave a buffer, which the code does not notice.
  datatype Result = Ok | NoMem | Overrun

  // A text field: a literal, or the C string at an offset of the buffer.
  datatype Field = Empty | Utf8 | At(pos: nat)

  datatype Fields = Fields(
    csName: Field, dbDriver: Field, dbSource: Field, dbName: Field, dbUser: Field, dbPwd: Field, dbCharset: Field,
    dbHost: Field, dbPort: nat, dbFlag: nat, dbSocket: Field,
    dbSlaveId: nat, dbKeepAlive: nat, dbMaxConn: nat, dbBaseConn: nat)

  const DEFAULTS: Fields := Fields(Empty, Empty, Empty, Empty, Empty, Empty, Utf8, Empty, 0, DEFAULT_FLAG,
    Empty, 0, 0, 0, 0)

  // atoi stored in a UINT32_T
  function Number(atoi: Bytes -> int, s: Bytes): nat { atoi(s) % 0x1_0000_0000 }

  // db_flag |= CLIENT_COMPRESS
  function WithCompress(flag: nat): nat { if flag / CLIENT_COMPRESS % 2 == 1 then flag else flag + CLIENT_COMPRESS }

  // The position of a taken value, or the default.
  function FieldOf(str: Bytes, param: Bytes, unset: Field): Field {
    match Taken(str, param)
    case Some(r) => At(r.pos)
    case None => unset
  }

  function NumberOf(atoi: Bytes -> int, str: Bytes, param: Bytes, unset: nat): nat {
    match Taken(str, param)
    case Some(r) => Number(atoi, Shown(str, r))
    case None => unset
  }

  function CompressedFlag(str: Bytes, flag: nat): nat {
    match Taken(str, COMPRESS)
    case Some(r) => if Shown(str, r) == YES then WithCompress(flag) else flag
    case None => flag
  }

  // The number behind the cut.
  function PortOf(atoi: Bytes -> int, str: Bytes): nat {
    if Cut(str).Some? then
      Number(atoi, str[Cut(str).value + 1..Taken(str, SOURCE).value.pos + Taken(str, SOURCE).value.len])
    else 0
  }

  // A text field reads back as its value.
  ghost predicate Reads(buf: Bytes, f: Field, unset: Field, str: Bytes, param: Bytes) {
    && f == FieldOf(str, param, unset)
    && (f.At? && Taken(str, param).Some? ==>
          f.pos <= |buf| && TextAt(buf, f.pos) == Shown(str, Taken(str, param).value))
  }

  ghost predicate TextsRead(buf: Bytes, f: Fields, str: Bytes) {
    && Reads(buf, f.csName, Empty, str, NAME) && Reads(buf, f.dbDriver, Empty, str, DRIVER)
    && Reads(buf, f.dbSource, Empty, str, SOURCE) && Reads(buf, f.dbName, Empty, str, DBNAME)
    && Reads(buf, f.dbUser, Empty, str, DBUSR) && Reads(buf, f.dbPwd, Empty, str, DBPWD)
    && Reads(buf, f.dbCharset, Utf8, str, DBCHARSET) && Reads(buf, f.dbSocket, Empty, str, DBSOCKET)
    && f.dbHost == if Cut(str).Some? then f.dbSource else Empty
  }

  ghost predicate NumbersRead(atoi: Bytes -> int, f: Fields, str: Bytes) {
    && f.dbPort == PortOf(atoi, str)
    && f.dbSlaveId == NumberOf(atoi, str, SLAVEID, 0) && f.dbKeepAlive == NumberOf(atoi, str, KEEPALIVE, 0)
    && f.dbMaxConn == NumberOf(atoi, str, MAXCONN, 0) && f.dbBaseConn == NumberOf(atoi, str, BASECONN, 0)
    && f.dbFlag == CompressedFlag(str, NumberOf(atoi, str, DBFLAG, DEFAULT_FLAG))
  }

  ghost function Ends(str: Bytes, param: Bytes): set<nat> {
    match Taken(str, param)
    case Some(r) => {r.pos + r.len}
    case None => {}
  }

  // The look-up of a value starts inside the buffer of the lower-case copy.
  ghost predicate Readable(str: Bytes, param: Bytes) {
    ValuePos(Lower(str), param).Some? ==> ValuePos(Lower(str), param).value < MAX_DB_CS_LEN
  }

  const PARAMS: seq<Bytes> := [NAME, DRIVER, SOURCE, DBNAME, DBUSR, DBPWD, DBCHARSET, DBFLAG, DBSOCKET,
    SLAVEID, KEEPALIVE, MAXCONN, BASECONN, COMPRESS]

  ghost predicate Safe(str: Bytes) { forall i | 0 <= i < |PARAMS| :: Readable(str, PARAMS[i]) }

  // --- What the code does not check ---

  predicate Accepted(str: Bytes) { !(MAX_DB_CS_LEN < |str|) }

  predicate Fits(str: Bytes) { |str| + 1 <= MAX_DB_CS_LEN }

  // The check lets a string of exactly the buffer's length through, whose terminator has no room; it
  // does what it is for on all others.
  lemma LengthCheck(str: Bytes)
    ensures (Accepted(str) <==> Fits(str)) <==> |str| != MAX_DB_CS_LEN
  {
  }

  lemma TooLongByOne()
    ensures exists str | |str| == 256 && NulFree(str) :: Accepted(str) && !Fits(str)
  {
    var str: Bytes := seq(256, i => 120);
    assert |str| == 256 && NulFree(str) && Accepted(str) && !Fits(str);
  }

  // The first occurrence of a pattern is at i.
  ghost predicate FirstAt(s: Bytes, pattern: Bytes, i: nat) {
    Stands(s, pattern, i) && forall j: nat | j < i :: !Stands(s, pattern, j)
  }

  // A look-up leaves the copy exactly when the first occurrence of the name stands behind a space and
  // ends at byte 254 or later.
  lemma ReadableMeans(str: Bytes, param: Bytes)
    ensures Readable(str, param) <==>
      forall i | 0 < i <= |str| && FirstAt(Lower(str), param, i) && str[i - 1] == SPACE :: i + |param| < 254
  {
    var low := Lower(str);
    var first := StrStr(low, param, 0);
    if first.Some? {
      assert FirstAt(low, param, first.value);
      assert first.value > 0 ==> (low[first.value - 1] == SPACE <==> str[first.value - 1] == SPACE);
    }
    forall i | 0 < i <= |str| && FirstAt(low, param, i) ensures first == Some(i) {
      assert !Stands(low, param, i) || first.Some?;
    }
  }

  lemma ShortIsSafe(str: Bytes)
    requires |str| < 254
    ensures Safe(str)
  {
  }

  // 249 letters, a space and "name"
  lemma NameAtTheEnd()
    ensures exists str | |str| == 254 && NulFree(str) :: !Readable(str, NAME) && !Safe(str)
  {
    var fill: Bytes := seq(249, i => 120);
    var str := fill + [SPACE] + NAME;
    var low := Lower(str);
    assert str[249] == SPACE && forall i | 0 <= i < 249 :: str[i] == 120;
    assert str[250..254] == NAME && low[250..254] == NAME by {
      assert str[250] == NAME[0] && str[251] == NAME[1] && str[252] == NAME[2] && str[253] == NAME[3];
    }
    forall j: nat | j < 250 ensures !Stands(low, NAME, j) {
      assert low[j] != NAME[0] && (j + 4 <= |low| ==> low[j..j + 4][0] == low[j]);
    }
    assert FirstAt(low, NAME, 250);
    ReadableMeans(str, NAME);
    assert NAME == PARAMS[0];
    assert |str| == 254 && NulFree(str) && !Readable(str, NAME) && !Safe(str);
  }

  // --- What the fields hold, over the bytes of the string ---

  lemma LettersLowered(i: nat)
    requires i < 26
    ensures Ascii("ABCDEFGHIJKLMNOPQRSTUVWXYZ")[i] == 65 + i
    ensures ToLower(Ascii("ABCDEFGHIJKLMNOPQRSTUVWXYZ")[i]) == Ascii("abcdefghijklmnopqrstuvwxyz")[i]
  {
  }

  lemma OthersKept(c: Byte)
    requires c !in Ascii("ABCDEFGHIJKLMNOPQRSTUVWXYZ")
    ensures ToLower(c) == c
  {
    if 65 <= c <= 90 { LettersLowered(c - 65); }
  }

  lemma ParameterNames()
    ensures NAME == Ascii("name") && DRIVER == Ascii("driver") && SOURCE == Ascii("source")
    ensures DBNAME == Ascii("dbname") && DBUSR == Ascii("dbusr") && DBPWD == Ascii("dbpwd")
    ensures DBCHARSET == Ascii("dbcharset") && DBFLAG == Ascii("dbflag") && DBSOCKET == Ascii("dbsocket")
    ensures SLAVEID == Ascii("slaveid") && KEEPALIVE == Ascii("keepalive") && MAXCONN == Ascii("maxconn")
    ensures BASECONN == Ascii("baseconn") && COMPRESS == Ascii("compress") && YES == Ascii("yes")
    ensures [SPACE, QUOTE, COMMA] == Ascii(" \",")
  {
  }

  // The name first occurs, in either case, behind a space; the value begins two bytes behind it.
  ghost predicate BeginsAt(str: Bytes, param: Bytes, a: nat) {
    exists i: nat :: FirstAt(Lower(str), param, i) && 0 < i && str[i - 1] == SPACE && a == i + |param| + 2
  }

  // A parameter has a value from a up to the next quote at b, which is not empty.
  ghost predicate HasValue(str: Bytes, param: Bytes, a: nat, b: nat) {
    a < b < |str| && BeginsAt(str, param, a) && str[b] == QUOTE && QUOTE !in str[a..b]
  }

  ghost predicate HasNone(str: Bytes, param: Bytes) { forall a: nat, b: nat :: !HasValue(str, param, a, b) }

  // The first comma in the value of the source is at c.
  ghost predicate SplitsAt(str: Bytes, a: nat, b: nat, c: nat) {
    HasValue(str, SOURCE, a, b) && a <= c < b && str[c] == COMMA && COMMA !in str[a..c]
  }

  ghost predicate IsCut(str: Bytes, c: nat) { exists a: nat, b: nat :: SplitsAt(str, a, b, c) }

  // Where a value from a to b ends for C: at its quote, or at the comma of the source if that is in it.
  ghost predicate EndsAt(str: Bytes, a: nat, b: nat, e: nat) {
    (a <= e < b && IsCut(str, e)) || (e == b && forall c: nat | a <= c < b :: !IsCut(str, c))
  }

  // A value from a to b reads as the given text.
  ghost predicate ReadsAs(str: Bytes, a: nat, b: nat, text: Bytes) {
    exists e: nat :: EndsAt(str, a, b, e) && a <= e <= b <= |str| && text == str[a..e]
  }

  ghost predicate TextIs(buf: Bytes, f: Field, unset: Field, str: Bytes, param: Bytes) {
    && (forall a: nat, b: nat | HasValue(str, param, a, b) ::
          f == At(a) && a <= |buf| && ReadsAs(str, a, b, TextAt(buf, a)))
    && (HasNone(str, param) ==> f == unset)
  }

  ghost predicate NumberIs(atoi: Bytes -> int, n: nat, unset: nat, str: Bytes, param: Bytes) {
    && (forall a: nat, b: nat | HasValue(str, param, a, b) ::
          exists text :: ReadsAs(str, a, b, text) && n == atoi(text) % 0x1_0000_0000)
    && (HasNone(str, param) ==> n == unset)
  }

  // Host and port are what stands before and behind the comma of the source.
  ghost predicate HostAndPort(atoi: Bytes -> int, buf: Bytes, f: Fields, str: Bytes) {
    && (forall a: nat, b: nat, c: nat | SplitsAt(str, a, b, c) ::
          && f.dbHost == At(a) && a <= |buf| && TextAt(buf, a) == str[a..c]
          && f.dbPort == atoi(str[c + 1..b]) % 0x1_0000_0000)
    && ((forall c: nat :: !IsCut(str, c)) ==> f.dbHost == Empty && f.dbPort == 0)
  }

  ghost predicate SaysYes(str: Bytes) {
    exists a: nat, b: nat :: HasValue(str, COMPRESS, a, b) && ReadsAs(str, a, b, YES)
  }

  // Bit 5 is set where compression is asked for; the other bits are those of the number given, or the default.
  ghost predicate FlagIs(atoi: Bytes -> int, flag: nat, str: Bytes) {
    exists base: nat ::
      && NumberIs(atoi, base, 0x3_0000, str, DBFLAG)
      && flag / 64 == base / 64 && flag % 32 == base % 32
      && (flag / 32 % 2 == 1 <==> base / 32 % 2 == 1 || SaysYes(str))
  }

  ghost predicate FieldsAre(atoi: Bytes -> int, buf: Bytes, f: Fields, str: Bytes) {
    && TextIs(buf, f.csName, Empty, str, NAME) && TextIs(buf, f.dbDriver, Empty, str, DRIVER)
    && TextIs(buf, f.dbSource, Empty, str, SOURCE) && TextIs(buf, f.dbName, Empty, str, DBNAME)
    && TextIs(buf, f.dbUser, Empty, str, DBUSR) && TextIs(buf, f.dbPwd, Empty, str, DBPWD)
    && TextIs(buf, f.dbCharset, Utf8, str, DBCHARSET) && TextIs(buf, f.dbSocket, Empty, str, DBSOCKET)
    && HostAndPort(atoi, buf, f, str) && FlagIs(atoi, f.dbFlag, str)
    && NumberIs(atoi, f.dbSlaveId, 0, str, SLAVEID) && NumberIs(atoi, f.dbKeepAlive, 0, str, KEEPALIVE)
    && NumberIs(atoi, f.dbMaxConn, 0, str, MAXCONN) && NumberIs(atoi, f.dbBaseConn, 0, str, BASECONN)
  }

  lemma ValuePosMeans(str: Bytes, param: Bytes, a: nat)
    ensures ValuePos(Lower(str), param) == Some(a) <==> BeginsAt(str, param, a)
  {
    var low := Lower(str);
    var first := StrStr(low, param, 0);
    if first.Some? { assert FirstAt(low, param, first.value); }
    forall i: nat | FirstAt(low, param, i) ensures first == Some(i) {
      assert first.Some? ==> !(first.value < i) && !(i < first.value);
    }
    assert first.Some? && first.value > 0 ==> (low[first.value - 1] == SPACE <==> str[first.value - 1] == SPACE);
  }

  // The value that is taken, if there is one.
  lemma TakenMeans(str: Bytes, param: Bytes, a: nat, b: nat)
    ensures HasValue(str, param, a, b) <==> a < b && Taken(str, param) == Some(Range(a, b - a))
  {
    ValuePosMeans(str, param, a);
    hide ValuePos, BeginsAt;
    var low := Lower(str);
    if a <= |str| {
      var q := StrChr(low, QUOTE, a);
      assert forall i | 0 <= i < |str| :: low[i] == QUOTE <==> str[i] == QUOTE;
      if HasValue(str, param, a, b) {
        assert forall i | a <= i < b :: str[i] == str[a..b][i - a] != QUOTE;
        assert q == Some(b);
      }
    }
  }

  lemma NoneTaken(str: Bytes, param: Bytes)
    ensures HasNone(str, param) <==> Taken(str, param).None?
  {
    hide Taken, HasValue;
    forall a: nat, b: nat
      ensures HasValue(str, param, a, b) <==> a < b && Taken(str, param) == Some(Range(a, b - a))
    {
      TakenMeans(str, param, a, b);
    }
    if Taken(str, param).Some? {
      var r := Taken(str, param).value;
      assert HasValue(str, param, r.pos, r.pos + r.len);
    }
  }
  // The cut is at the first comma of the source.
  lemma CutMeans(str: Bytes, a: nat, b: nat, c: nat)
    ensures SplitsAt(str, a, b, c) <==> HasValue(str, SOURCE, a, b) && Cut(str) == Some(c)
  {
    TakenMeans(str, SOURCE, a, b);
    hide Taken, HasValue;
    if HasValue(str, SOURCE, a, b) {
      var head := str[..b];
      assert forall i | 0 <= i < b :: head[i] == str[i];
      if SplitsAt(str, a, b, c) {
        assert forall i | a <= i < c :: head[i] == str[a..c][i - a] != COMMA;
      }
    }
  }

  lemma CutIsCut(str: Bytes)
    ensures forall c: nat :: IsCut(str, c) <==> Cut(str) == Some(c)
  {
    forall c: nat ensures IsCut(str, c) <==> Cut(str) == Some(c) {
      if IsCut(str, c) {
        var a: nat, b: nat :| SplitsAt(str, a, b, c);
        CutMeans(str, a, b, c);
      }
      if Cut(str) == Some(c) {
        var r := Taken(str, SOURCE).value;
        TakenMeans(str, SOURCE, r.pos, r.pos + r.len);
        hide Taken, HasValue, Cut;
        CutMeans(str, r.pos, r.pos + r.len, c);
      }
    }
  }

  lemma ShownMeans(str: Bytes, a: nat, b: nat)
    requires a < b < |str|
    ensures forall text :: ReadsAs(str, a, b, text) <==> text == Shown(str, Range(a, b - a))
  {
    CutIsCut(str);
    hide Cut, IsCut;
    var e := if Cut(str).Some? && a <= Cut(str).value < b then Cut(str).value else b;
    assert forall d: nat :: EndsAt(str, a, b, d) <==> d == e;
  }

  lemma TextMeans(buf: Bytes, f: Field, unset: Field, str: Bytes, param: Bytes)
    requires Reads(buf, f, unset, str, param)
    ensures TextIs(buf, f, unset, str, param)
  {
    hide Taken, HasValue, HasNone, ReadsAs, Shown, TextAt;
    NoneTaken(str, param);
    forall a: nat, b: nat | HasValue(str, param, a, b)
      ensures f == At(a) && a <= |buf| && ReadsAs(str, a, b, TextAt(buf, a))
    {
      TakenMeans(str, param, a, b);
      ShownMeans(str, a, b);
    }
  }

  lemma NumberMeans(atoi: Bytes -> int, unset: nat, str: Bytes, param: Bytes)
    ensures NumberIs(atoi, NumberOf(atoi, str, param, unset), unset, str, param)
  {
    hide Taken, HasValue, HasNone, ReadsAs, Shown;
    NoneTaken(str, param);
    var n := NumberOf(atoi, str, param, unset);
    forall a: nat, b: nat | HasValue(str, param, a, b)
      ensures exists text :: ReadsAs(str, a, b, text) && n == atoi(text) % 0x1_0000_0000
    {
      TakenMeans(str, param, a, b);
      ShownMeans(str, a, b);
    }
  }

  lemma HostMeans(atoi: Bytes -> int, buf: Bytes, f: Fields, str: Bytes)
    requires Reads(buf, f.dbSource, Empty, str, SOURCE) && f.dbPort == PortOf(atoi, str)
    requires f.dbHost == if Cut(str).Some? then f.dbSource else Empty
    ensures HostAndPort(atoi, buf, f, str)
  {
    hide Taken, IsCut;
    CutIsCut(str);
    forall a: nat, b: nat, c: nat | SplitsAt(str, a, b, c)
      ensures f.dbHost == At(a) && a <= |buf| && TextAt(buf, a) == str[a..c]
      ensures f.dbPort == atoi(str[c + 1..b]) % 0x1_0000_0000
    {
      CutMeans(str, a, b, c);
      TakenMeans(str, SOURCE, a, b);
    }
  }

  lemma YesMeans(str: Bytes)
    ensures SaysYes(str) <==> Taken(str, COMPRESS).Some? && Shown(str, Taken(str, COMPRESS).value) == YES
  {
    hide Taken, HasValue, ReadsAs, Shown;
    if SaysYes(str) {
      var a: nat, b: nat :| HasValue(str, COMPRESS, a, b) && ReadsAs(str, a, b, YES);
      TakenMeans(str, COMPRESS, a, b);
      ShownMeans(str, a, b);
    }
    if Taken(str, COMPRESS).Some? {
      var r := Taken(str, COMPRESS).value;
      TakenMeans(str, COMPRESS, r.pos, r.pos + r.len);
      ShownMeans(str, r.pos, r.pos + r.len);
    }
  }

  lemma BitsApart(h: nat, b: nat, m: nat)
    requires b < 2 && m < 32
    ensures var n := 64 * h + 32 * b + m;
      n / 64 == h && n % 32 == m && n / 32 == 2 * h + b && n / 32 % 2 == b
  {
  }

  lemma BitFive(n: nat)
    ensures var r := WithCompress(n);
      r / 64 == n / 64 && r % 32 == n % 32 && r / 32 % 2 == 1
  {
    var h, k := n / 64, n % 64;
    var b, m := k / 32, k % 32;
    assert n == 64 * h + 32 * b + m;
    BitsApart(h, b, m);
    BitsApart(h, 1, m);
  }

  lemma FlagMeans(atoi: Bytes -> int, str: Bytes)
    ensures FlagIs(atoi, CompressedFlag(str, NumberOf(atoi, str, DBFLAG, DEFAULT_FLAG)), str)
  {
    var base := NumberOf(atoi, str, DBFLAG, DEFAULT_FLAG);
    var flag := CompressedFlag(str, base);
    NumberMeans(atoi, DEFAULT_FLAG, str, DBFLAG);
    YesMeans(str);
    BitFive(base);
    hide NumberIs, SaysYes, Taken, Shown, WithCompress, NumberOf;
    assert flag == if SaysYes(str) then WithCompress(base) else base;
  }

  // What the parser computes is what the string says.
  lemma FieldsMean(atoi: Bytes -> int, buf: Bytes, f: Fields, str: Bytes)
    requires TextsRead(buf, f, str) && NumbersRead(atoi, f, str)
    ensures FieldsAre(atoi, buf, f, str)
  {
    hide Reads, TextIs, NumberIs, NumberOf, HostAndPort, FlagIs, CompressedFlag, PortOf, Cut;
    TextMeans(buf, f.csName, Empty, str, NAME);
    TextMeans(buf, f.dbDriver, Empty, str, DRIVER);
    TextMeans(buf, f.dbSource, Empty, str, SOURCE);
    TextMeans(buf, f.dbName, Empty, str, DBNAME);
    TextMeans(buf, f.dbUser, Empty, str, DBUSR);
    TextMeans(buf, f.dbPwd, Empty, str, DBPWD);
    TextMeans(buf, f.dbCharset, Utf8, str, DBCHARSET);
    TextMeans(buf, f.dbSocket, Empty, str, DBSOCKET);
    NumberMeans(atoi, 0, str, SLAVEID);
    NumberMeans(atoi, 0, str, KEEPALIVE);
    NumberMeans(atoi, 0, str, MAXCONN);
    NumberMeans(atoi, 0, str, BASECONN);
    HostMeans(atoi, buf, f, str);
    FlagMeans(atoi, str);
  }

  // The lower-case copy: the string, and zeros up to the end.
  ghost predicate Copied(low: Bytes, str: Bytes) {
    && NulFree(str) && |low| == MAX_DB_CS_LEN && |str| < MAX_DB_CS_LEN && low[..|str|] == Lower(str)
    && forall i | |str| <= i < MAX_DB_CS_LEN :: low[i] == 0
  }

  ghost predicate IsCopy(low: array<Byte>, str: Bytes)
    reads low
  {
    Copied(low[..], str)
  }

  ghost predicate CutMade(str: Bytes, nuls: set<nat>) { Cut(str).Some? ==> Cut(str).value in nuls }

  // Searching the terminated source for a comma finds the cut.
  lemma CutIs(str: Bytes, text: Bytes)
    requires Taken(str, SOURCE).Some?
    requires var r := Taken(str, SOURCE).value;
      text == str[r.pos..r.pos + r.len]
    ensures var r, k := Taken(str, SOURCE).value, StrChr(text, COMMA, 0);
      Cut(str) == match k
                  case Some(i) => Some(r.pos + i)
                  case None => None
  {
    hide ParamValue, Lower;
    var r := Taken(str, SOURCE).value;
    var head := str[..r.pos + r.len];
    assert forall i | r.pos <= i < r.pos + r.len :: head[i] == str[i] == text[i - r.pos];
  }

  lemma PortReads(buf: Bytes, str: Bytes, nuls: set<nat>)
    requires NulFree(str) && Carved(buf, str, nuls) && Cut(str).Some?
    requires var r := Taken(str, SOURCE).value;
      r.pos + r.len in nuls
    ensures var r, c := Taken(str, SOURCE).value, Cut(str).value;
      r.pos <= c < r.pos + r.len && TextAt(buf, c + 1) == str[c + 1..r.pos + r.len]
  {
    hide ParamValue, Lower;
    var r, c := Taken(str, SOURCE).value, Cut(str).value;
    TextAtIs(buf, c + 1, r.pos + r.len);
    assert buf[c + 1..r.pos + r.len] == str[c + 1..r.pos + r.len];
  }

  // A look-up finds the value that is taken, unless that is empty.
  lemma TakenIs(str: Bytes, param: Bytes, r: Option<Range>)
    requires r == ParamValue(Lower(str), param)
    ensures Taken(str, param) == if r.Some? && r.value.len > 0 then r else None
    ensures forall n | n in Ends(str, param) :: n < |str| && str[n] == QUOTE
    ensures Ends(str, param) == if r.Some? && r.value.len > 0 then {r.value.pos + r.value.len} else {}
  {
  }

  lemma Terminate(buf: Bytes, str: Bytes, nuls: set<nat>, n: nat)
    requires Carved(buf, str, nuls) && n < |str| && (str[n] == QUOTE || Cut(str) == Some(n))
    ensures |buf| == MAX_DB_CS_LEN && Carved(buf[n := 0], str, nuls + {n})
  {
  }

  lemma EndsAreQuotes(str: Bytes, param: Bytes)
    ensures forall n | n in Ends(str, param) :: n < |str| && str[n] == QUOTE
  {
  }

  lemma FieldReadsBack(buf: Bytes, str: Bytes, nuls: set<nat>, param: Bytes, unset: Field)
    requires NulFree(str) && Carved(buf, str, nuls) && CutMade(str, nuls) && Ends(str, param) <= nuls && !unset.At?
    ensures Reads(buf, FieldOf(str, param, unset), unset, str, param)
  {
    hide Taken, Carved, Shown, Cut, TextAt;
    var r := Taken(str, param);
    if r.Some? { FieldReads(buf, str, nuls, r.value); }
  }

  lemma TextsReadBack(buf: Bytes, str: Bytes, nuls: set<nat>)
    requires NulFree(str) && Carved(buf, str, nuls) && CutMade(str, nuls)
    requires Ends(str, NAME) + Ends(str, DRIVER) + Ends(str, SOURCE) + Ends(str, DBNAME) <= nuls
    requires Ends(str, DBUSR) + Ends(str, DBPWD) + Ends(str, DBCHARSET) + Ends(str, DBSOCKET) <= nuls
    ensures Reads(buf, FieldOf(str, NAME, Empty), Empty, str, NAME)
    ensures Reads(buf, FieldOf(str, DRIVER, Empty), Empty, str, DRIVER)
    ensures Reads(buf, FieldOf(str, SOURCE, Empty), Empty, str, SOURCE)
    ensures Reads(buf, FieldOf(str, DBNAME, Empty), Empty, str, DBNAME)
    ensures Reads(buf, FieldOf(str, DBUSR, Empty), Empty, str, DBUSR)
    ensures Reads(buf, FieldOf(str, DBPWD, Empty), Empty, str, DBPWD)
    ensures Reads(buf, FieldOf(str, DBSOCKET, Empty), Empty, str, DBSOCKET)
    ensures Reads(buf, FieldOf(str, DBCHARSET, Utf8), Utf8, str, DBCHARSET)
  {
    hide Carved, Ends, Reads, FieldOf, CutMade;
    FieldReadsBack(buf, str, nuls, NAME, Empty);
    FieldReadsBack(buf, str, nuls, DRIVER, Empty);
    FieldReadsBack(buf, str, nuls, SOURCE, Empty);
    FieldReadsBack(buf, str, nuls, DBNAME, Empty);
    FieldReadsBack(buf, str, nuls, DBUSR, Empty);
    FieldReadsBack(buf, str, nuls, DBPWD, Empty);
    FieldReadsBack(buf, str, nuls, DBSOCKET, Empty);
    FieldReadsBack(buf, str, nuls, DBCHARSET, Utf8);
  }

  lemma AllReadable(str: Bytes)
    ensures Safe(str) <==>
      && Readable(str, NAME) && Readable(str, DRIVER) && Readable(str, SOURCE) && Readable(str, DBNAME)
      && Readable(str, DBUSR) && Readable(str, DBPWD) && Readable(str, DBCHARSET) && Readable(str, DBFLAG)
      && Readable(str, DBSOCKET) && Readable(str, SLAVEID) && Readable(str, KEEPALIVE)
      && Readable(str, MAXCONN) && Readable(str, BASECONN) && Readable(str, COMPRESS)
  {
    hide Readable;
    assert PARAMS[0] == NAME && PARAMS[1] == DRIVER && PARAMS[2] == SOURCE && PARAMS[3] == DBNAME;
    assert PARAMS[4] == DBUSR && PARAMS[5] == DBPWD && PARAMS[6] == DBCHARSET && PARAMS[7] == DBFLAG;
    assert PARAMS[8] == DBSOCKET && PARAMS[9] == SLAVEID && PARAMS[10] == KEEPALIVE;
    assert PARAMS[11] == MAXCONN && PARAMS[12] == BASECONN && PARAMS[13] == COMPRESS;
  }

  // strstr and the look at the byte before
  method FindParam(low: array<Byte>, ghost str: Bytes, param: Bytes) returns (pos: Option<nat>)
    requires IsCopy(low, str)
    ensures pos == ValuePos(Lower(str), param)
  {
    TextAtIs(low[..], 0, |str|);
    assert low[0..|str|] == Lower(str);
    hide StrStr, TextAt, Lower;
    var dest := StrStr(TextAt(low[..], 0), param, 0);
    if dest.None? || dest.value == 0 || low[dest.value - 1] != SPACE {
      return None;
    }
    return Some(dest.value + 1 + |param| + 1);
  }

  lemma CopyByte(low: Bytes, str: Bytes, i: nat)
    requires Copied(low, str) && i < MAX_DB_CS_LEN
    ensures low[i] == if i < |str| then Lower(str)[i] else 0
    ensures i < |str| ==> low[i] != 0
  {
    assert i < |str| ==> low[..|str|][i] == low[i];
  }

  // strchr from pos on
  method FindQuote(low: array<Byte>, ghost str: Bytes, pos: nat) returns (r: Option<nat>)
    requires IsCopy(low, str) && pos < MAX_DB_CS_LEN
    ensures r == if pos <= |str| then StrChr(Lower(str), QUOTE, pos) else None
    ensures r.Some? ==> r.value >= pos
  {
    var quote := pos;
    while low[quote] != 0 && low[quote] != QUOTE
      invariant pos <= quote < MAX_DB_CS_LEN && (pos <= |str| ==> quote <= |str|)
      invariant pos <= |str| ==> StrChr(Lower(str), QUOTE, pos) == StrChr(Lower(str), QUOTE, quote)
      invariant pos > |str| ==> forall i | pos <= i < MAX_DB_CS_LEN :: low[i] == 0
      decreases MAX_DB_CS_LEN - quote
    {
      CopyByte(low[..], str, quote);
      quote := quote + 1;
    }
    CopyByte(low[..], str, quote);
    return if low[quote] == QUOTE then Some(quote) else None;
  }

  // get_param_value on the lower-case copy, and whether it stays inside
  method GetParamValue(low: array<Byte>, ghost str: Bytes, param: Bytes) returns (r: Option<Range>, inside: bool)
    requires IsCopy(low, str)
    ensures r == ParamValue(Lower(str), param) && (inside <==> Readable(str, param))
  {
    assert |str| < MAX_DB_CS_LEN;
    hide IsCopy, Lower, ValuePos, StrChr;
    var pos := FindParam(low, str, param);
    if pos.None? {
      return None, true;
    }
    if pos.value >= MAX_DB_CS_LEN {
      return None, false;
    }
    var quote := FindQuote(low, str, pos.value);
    r, inside := if quote.Some? then Some(Range(pos.value, quote.value - pos.value)) else None, true;
  }

  class ConnectStrings {
    const buf: array<Byte>
    var fields: Fields
    var overrun: bool
    ghost var nuls: set<nat>

    ghost predicate Holds(str: Bytes)
      reads this`nuls, buf
    {
      NulFree(str) && Carved(buf[..], str, nuls)
    }

    // A terminator at a quote, or at the comma of the source.
    method WriteNul(ghost str: Bytes, n: nat)
      requires Holds(str) && n < |str| && (str[n] == QUOTE || Cut(str) == Some(n))
      modifies buf, this`nuls
      ensures Holds(str) && nuls == old(nuls) + {n}
    {
      hide Cut;
      ghost var after := buf[..][n := 0];
      Terminate(buf[..], str, nuls, n);
      buf[n] := 0;
      nuls := nuls + {n};
      assert buf[..] == after;
    }

    // Looks a parameter up and terminates its value.
    method TakeValue(low: array<Byte>, ghost str: Bytes, param: Bytes) returns (r: Option<Range>)
      requires low != buf && IsCopy(low, str) && Holds(str)
      modifies buf, this`nuls, this`overrun
      ensures Holds(str) && r == Taken(str, param) && nuls == old(nuls) + Ends(str, param)
      ensures overrun <==> old(overrun) || !Readable(str, param)
    {
      var inside;
      r, inside := GetParamValue(low, str, param);
      overrun := overrun || !inside;
      TakenIs(str, param, r);
      hide Taken, Ends, ParamValue, Lower, Carved, Readable, IsCopy, NulFree;
      if r.Some? && r.value.len > 0 {
        assert r.value.pos + r.value.len in Ends(str, param);
        WriteNul(str, r.value.pos + r.value.len);
      } else {
        r := None;
        assert nuls + {} == nuls;
      }
    }

    method TextValue(low: array<Byte>, ghost str: Bytes, param: Bytes, unset: Field) returns (f: Field)
      requires low != buf && IsCopy(low, str) && Holds(str)
      modifies buf, this`nuls, this`overrun
      ensures Holds(str) && f == FieldOf(str, param, unset) && nuls == old(nuls) + Ends(str, param)
      ensures overrun <==> old(overrun) || !Readable(str, param)
    {
      var r := TakeValue(low, str, param);
      f := if r.Some? then At(r.value.pos) else unset;
    }

    // The C string at a value, once its terminator and that at the cut are written.
    method ReadField(ghost str: Bytes, ghost param: Bytes, r: Range) returns (text: Bytes)
      requires Holds(str) && Taken(str, param) == Some(r) && Ends(str, param) <= nuls && CutMade(str, nuls)
      ensures text == Shown(str, r)
    {
      hide Taken, Carved, Shown, Cut, TextAt;
      FieldReads(buf[..], str, nuls, r);
      text := TextAt(buf[..], r.pos);
    }

    method NumberValue(low: array<Byte>, ghost str: Bytes, param: Bytes, unset: nat, atoi: Bytes -> int)
      returns (n: nat)
      requires low != buf && IsCopy(low, str) && Holds(str) && CutMade(str, nuls)
      modifies buf, this`nuls, this`overrun
      ensures Holds(str) && n == NumberOf(atoi, str, param, unset) && nuls == old(nuls) + Ends(str, param)
      ensures overrun <==> old(overrun) || !Readable(str, param)
    {
      var r := TakeValue(low, str, param);
      n := unset;
      if r.Some? {
        var text := ReadField(str, param, r.value);
        n := Number(atoi, text);
      }
    }

    method SplitSource(ghost str: Bytes, valuePos: nat, atoi: Bytes -> int) returns (host: Field, port: nat)
      requires Holds(str) && Taken(str, SOURCE).Some? && Taken(str, SOURCE).value.pos == valuePos
      requires Ends(str, SOURCE) <= nuls && (forall n | n in nuls :: str[n] == QUOTE)
      modifies buf, this`nuls
      ensures Holds(str) && CutMade(str, nuls) && old(nuls) <= nuls
      ensures port == PortOf(atoi, str) && host == if Cut(str).Some? then At(valuePos) else Empty
    {
      hide StrStr, StrChr, Taken;
      host, port := Empty, 0;
      FieldReadsUncut(buf[..], str, nuls, Taken(str, SOURCE).value);
      var text := TextAt(buf[..], valuePos);
      CutIs(str, text);
      var dest := StrChr(text, COMMA, 0);
      if dest.Some? {
        host := At(valuePos);
        WriteNul(str, valuePos + dest.value);
        PortReads(buf[..], str, nuls);
        port := Number(atoi, TextAt(buf[..], valuePos + dest.value + 1));
      }
    }

    // The source, and the host and the port a comma in it sets apart.
    method Source(low: array<Byte>, ghost str: Bytes, atoi: Bytes -> int)
      returns (source: Field, host: Field, port: nat)
      requires low != buf && IsCopy(low, str) && Holds(str)
      requires forall n | n in nuls :: str[n] == QUOTE
      modifies buf, this`nuls, this`overrun
      ensures Holds(str) && CutMade(str, nuls) && old(nuls) + Ends(str, SOURCE) <= nuls
      ensures source == FieldOf(str, SOURCE, Empty) && port == PortOf(atoi, str)
      ensures host == if Cut(str).Some? then source else Empty
      ensures overrun <==> old(overrun) || !Readable(str, SOURCE)
    {
      source, host, port := Empty, Empty, 0;
      var r := TakeValue(low, str, SOURCE);
      if r.Some? {
        source := At(r.value.pos);
        host, port := SplitSource(str, r.value.pos, atoi);
      }
    }

    constructor ()
      ensures buf.Length == MAX_DB_CS_LEN && fresh(buf)
    {
      buf := new Byte[MAX_DB_CS_LEN](_ => 0);
      fields, overrun, nuls := DEFAULTS, false, {};
    }

    // strcpy into cs_buf and into the zeroed buffer that is then put into lower case
    method CopyString(str: Bytes) returns (low: array<Byte>)
      requires NulFree(str) && |str| <= MAX_DB_CS_LEN && buf.Length == MAX_DB_CS_LEN
      modifies buf, this`nuls, this`overrun
      ensures fresh(low) && (overrun <==> |str| == MAX_DB_CS_LEN)
      ensures !overrun ==> IsCopy(low, str) && Holds(str) && nuls == {}
    {
      low := new Byte[MAX_DB_CS_LEN](_ => 0);
      for i := 0 to |str|
        invariant buf[..i] == low[..i] == str[..i]
        invariant forall j | i <= j < MAX_DB_CS_LEN :: low[j] == 0
      {
        buf[i] := str[i];
        low[i] := str[i];
      }
      overrun := |str| == MAX_DB_CS_LEN;
      if overrun {
        return;
      }
      buf[|str|] := 0;
      nuls := {};
      assert buf[..|str|] == low[..|str|] == str;
      assert forall j | 0 <= j < |str| :: buf[j] == buf[..|str|][j] && low[j] == low[..|str|][j];
      StrLwr(low, |str|);
    }

    // The fields up to the source.
    method ParseFirst(low: array<Byte>, ghost str: Bytes, atoi: Bytes -> int)
      returns (name: Field, driver: Field, source: Field, host: Field, port: nat)
      requires low != buf && IsCopy(low, str) && Holds(str) && nuls == {}
      modifies buf, this`nuls, this`overrun
      ensures Holds(str) && CutMade(str, nuls) && Ends(str, NAME) + Ends(str, DRIVER) + Ends(str, SOURCE) <= nuls
      ensures name == FieldOf(str, NAME, Empty) && driver == FieldOf(str, DRIVER, Empty)
      ensures source == FieldOf(str, SOURCE, Empty) && port == PortOf(atoi, str)
      ensures host == if Cut(str).Some? then source else Empty
      ensures overrun <==> old(overrun) || !(Readable(str, NAME) && Readable(str, DRIVER) && Readable(str, SOURCE))
    {
      EndsAreQuotes(str, NAME);
      EndsAreQuotes(str, DRIVER);
      hide Readable, IsCopy, Carved, FieldOf, NumberOf, PortOf, Ends, CutMade, Cut, Taken, Lower, Safe;
      name := TextValue(low, str, NAME, Empty);
      driver := TextValue(low, str, DRIVER, Empty);
      source, host, port := Source(low, str, atoi);
    }

    // The other text fields but the socket.
    method ParseNames(low: array<Byte>, ghost str: Bytes) returns (name: Field, user: Field, pwd: Field, charset: Field)
      requires low != buf && IsCopy(low, str) && Holds(str) && CutMade(str, nuls)
      modifies buf, this`nuls, this`overrun
      ensures Holds(str) && CutMade(str, nuls)
      ensures nuls == old(nuls) + Ends(str, DBNAME) + Ends(str, DBUSR) + Ends(str, DBPWD) + Ends(str, DBCHARSET)
      ensures name == FieldOf(str, DBNAME, Empty) && user == FieldOf(str, DBUSR, Empty)
      ensures pwd == FieldOf(str, DBPWD, Empty) && charset == FieldOf(str, DBCHARSET, Utf8)
      ensures overrun <==> (old(overrun) ||
        !(Readable(str, DBNAME) && Readable(str, DBUSR) && Readable(str, DBPWD) && Readable(str, DBCHARSET)))
    {
      hide Readable, IsCopy, Carved, FieldOf, NumberOf, PortOf, Ends, Cut, Taken, Lower, Safe;
      name := TextValue(low, str, DBNAME, Empty);
      user := TextValue(low, str, DBUSR, Empty);
      pwd := TextValue(low, str, DBPWD, Empty);
      charset := TextValue(low, str, DBCHARSET, Utf8);
    }

    method Compress(low: array<Byte>, ghost str: Bytes, flag0: nat) returns (flag: nat)
      requires low != buf && IsCopy(low, str) && Holds(str) && CutMade(str, nuls)
      modifies buf, this`nuls, this`overrun
      ensures Holds(str) && nuls == old(nuls) + Ends(str, COMPRESS) && flag == CompressedFlag(str, flag0)
      ensures overrun <==> old(overrun) || !Readable(str, COMPRESS)
    {
      hide Readable, IsCopy, NumberOf, PortOf, Cut, Taken, Lower, Safe;
      flag := flag0;
      var r := TakeValue(low, str, COMPRESS);
      if r.Some? {
        var text := ReadField(str, COMPRESS, r.value);
        if text == YES {
          flag := WithCompress(flag);
        }
      }
    }

    // The numbers, the flag and the socket.
    method ParseNumbers(low: array<Byte>, ghost str: Bytes, atoi: Bytes -> int)
      returns (flag: nat, socket: Field, slaveId: nat, keepAlive: nat, maxConn: nat, baseConn: nat)
      requires low != buf && IsCopy(low, str) && Holds(str) && CutMade(str, nuls)
      modifies buf, this`nuls, this`overrun
      ensures Holds(str) && CutMade(str, nuls) && old(nuls) + Ends(str, DBSOCKET) <= nuls
      ensures socket == FieldOf(str, DBSOCKET, Empty)
      ensures flag == CompressedFlag(str, NumberOf(atoi, str, DBFLAG, DEFAULT_FLAG))
      ensures slaveId == NumberOf(atoi, str, SLAVEID, 0) && keepAlive == NumberOf(atoi, str, KEEPALIVE, 0)
      ensures maxConn == NumberOf(atoi, str, MAXCONN, 0) && baseConn == NumberOf(atoi, str, BASECONN, 0)
      ensures overrun <==> (old(overrun) || !(
        && Readable(str, DBFLAG) && Readable(str, DBSOCKET) && Readable(str, SLAVEID)
        && Readable(str, KEEPALIVE) && Readable(str, MAXCONN) && Readable(str, BASECONN) && Readable(str, COMPRESS)))
    {
      hide Readable, IsCopy, Carved, FieldOf, NumberOf, PortOf, Ends, Cut, Taken, Lower, Safe;
      flag := NumberValue(low, str, DBFLAG, DEFAULT_FLAG, atoi);
      socket := TextValue(low, str, DBSOCKET, Empty);
      slaveId := NumberValue(low, str, SLAVEID, 0, atoi);
      keepAlive := NumberValue(low, str, KEEPALIVE, 0, atoi);
      maxConn := NumberValue(low, str, MAXCONN, 0, atoi);
      baseConn := NumberValue(low, str, BASECONN, 0, atoi);
      flag := Compress(low, str, flag);
    }

    lemma FieldsRead(str: Bytes, f: Fields, atoi: Bytes -> int)
      requires Holds(str) && CutMade(str, nuls)
      requires Ends(str, NAME) + Ends(str, DRIVER) + Ends(str, SOURCE) <= nuls
      requires Ends(str, DBNAME) + Ends(str, DBUSR) + Ends(str, DBPWD) + Ends(str, DBCHARSET)
        + Ends(str, DBSOCKET) <= nuls
      requires f.csName == FieldOf(str, NAME, Empty) && f.dbDriver == FieldOf(str, DRIVER, Empty)
      requires f.dbSource == FieldOf(str, SOURCE, Empty) && f.dbPort == PortOf(atoi, str)
      requires f.dbHost == if Cut(str).Some? then f.dbSource else Empty
      requires f.dbName == FieldOf(str, DBNAME, Empty) && f.dbUser == FieldOf(str, DBUSR, Empty)
      requires f.dbPwd == FieldOf(str, DBPWD, Empty) && f.dbCharset == FieldOf(str, DBCHARSET, Utf8)
      requires f.dbSocket == FieldOf(str, DBSOCKET, Empty)
      requires f.dbFlag == CompressedFlag(str, NumberOf(atoi, str, DBFLAG, DEFAULT_FLAG))
      requires f.dbSlaveId == NumberOf(atoi, str, SLAVEID, 0) && f.dbKeepAlive == NumberOf(atoi, str, KEEPALIVE, 0)
      requires f.dbMaxConn == NumberOf(atoi, str, MAXCONN, 0) && f.dbBaseConn == NumberOf(atoi, str, BASECONN, 0)
      ensures TextsRead(buf[..], f, str) && NumbersRead(atoi, f, str)
    {
      TextsReadBack(buf[..], str, nuls);
      hide Reads, FieldOf, NumberOf, PortOf, Ends, Cut, CutMade, CompressedFlag, Carved;
    }

    // All fields, from the two copies of the string.
    method ParseCopied(low: array<Byte>, str: Bytes, atoi: Bytes -> int)
      requires low != buf && IsCopy(low, str) && Holds(str) && nuls == {} && !overrun
      modifies buf, this`nuls, this`overrun, this`fields
      ensures overrun <==> !Safe(str)
      ensures TextsRead(buf[..], fields, str) && NumbersRead(atoi, fields, str)
    {
      hide *;
      AllReadable(str);
      var csName, dbDriver, dbSource, dbHost, dbPort := ParseFirst(low, str, atoi);
      var dbName, dbUser, dbPwd, dbCharset := ParseNames(low, str);
      var dbFlag, dbSocket, dbSlaveId, dbKeepAlive, dbMaxConn, dbBaseConn := ParseNumbers(low, str, atoi);
      fields := Fields(csName, dbDriver, dbSource, dbName, dbUser, dbPwd, dbCharset, dbHost, dbPort, dbFlag, dbSocket,
        dbSlaveId, dbKeepAlive, dbMaxConn, dbBaseConn);
      FieldsRead(str, fields, atoi);
    }

    method Parse(str: Bytes, atoi: Bytes -> int) returns (rc: Result)
      requires buf.Length == MAX_DB_CS_LEN && NulFree(str)
      modifies this, buf
      ensures rc == if |str| > MAX_DB_CS_LEN then NoMem
        else if |str| == MAX_DB_CS_LEN || !Safe(str) then Overrun
        else Ok
      ensures rc == NoMem ==> fields == old(fields) && buf[..] == old(buf[..])
      ensures rc == Ok ==> TextsRead(buf[..], fields, str) && NumbersRead(atoi, fields, str)
      ensures rc == Ok ==> FieldsAre(atoi, buf[..], fields, str)
    {
      if MAX_DB_CS_LEN < |str| {
        return NoMem;
      }
      hide *;
      var low := CopyString(str);
      if !overrun {
        ParseCopied(low, str, atoi);
        FieldsMean(atoi, buf[..], fields, str);
      }
      rc := if overrun then Overrun else Ok;
    }
  }
}
