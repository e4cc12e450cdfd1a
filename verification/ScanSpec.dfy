/** What scanning a SCIP index must visit: the result of a full parse followed by the match
    predicates. And what the scanner, which reads as little as it can, visits. */
module ScanSpec {
  import opened Bytes
  import opened Wrappers
  import opened Wire

  const INDEX_DOCUMENTS: nat := 2
  const DOCUMENT_RELATIVE_PATH: nat := 1
  const DOCUMENT_OCCURRENCES: nat := 2
  const DOCUMENT_SYMBOLS: nat := 3
  const SYMBOL_INFORMATION_SYMBOL: nat := 1
  const OCCURRENCE_SYMBOL: nat := 2

  type Matcher = seq<Byte> -> bool

  /** The consumer's predicates, each optional, and which visitors it has. */
  datatype Config = Config(
    matchDocument: Option<Matcher>, visitsDocuments: bool,
    matchSymbol: Option<Matcher>, visitsSymbols: bool,
    matchOccurrence: Option<Matcher>, visitsOccurrences: bool
  )

  datatype Visit =
    | VisitDocument(message: seq<Field>)
    | VisitSymbol(path: seq<Byte>, message: seq<Field>)
    | VisitOccurrence(path: seq<Byte>, message: seq<Field>)

  /** The two kinds of entries of a document. */
  datatype EntryKind = SymbolEntry | OccurrenceEntry {
    /** The number of the field that holds the entry's moniker. */
    function Key(): nat {
      if SymbolEntry? then SYMBOL_INFORMATION_SYMBOL else OCCURRENCE_SYMBOL
    }

    function VisitOf(path: seq<Byte>, message: seq<Field>): Visit {
      if SymbolEntry? then VisitSymbol(path, message) else VisitOccurrence(path, message)
    }

    function MatcherIn(c: Config): Option<Matcher> {
      if SymbolEntry? then c.matchSymbol else c.matchOccurrence
    }

    function VisitedBy(c: Config): bool {
      if SymbolEntry? then c.visitsSymbols else c.visitsOccurrences
    }
  }

  /** The kind of entry that a document's field holds, if the consumer matches such entries. */
  function KindOf(c: Config, number: nat): (kind: Option<EntryKind>)
    ensures kind.Some? ==> kind.value.MatcherIn(c).Some?
  {
    if number == DOCUMENT_SYMBOLS && c.matchSymbol.Some? then Some(SymbolEntry)
    else if number == DOCUMENT_OCCURRENCES && c.matchOccurrence.Some? then Some(OccurrenceEntry)
    else None
  }

  // ----- reference: full parse, then filter

  /** The value of a string field: the last one given, empty if there is none. */
  function StringField(fields: seq<Field>, number: nat): seq<Byte> {
    if fields == [] then []
    else if Mentions(fields[1..], number) then StringField(fields[1..], number)
    else if fields[0].number == number && fields[0].value.LengthDelimited? then fields[0].value.payload
    else []
  }

  predicate Mentions(fields: seq<Field>, number: nat) {
    exists i :: 0 <= i < |fields| && fields[i].number == number
  }

  /** The reference names the fields by the numbers that SCIP gives them: in an index, documents are
      field 2; in a document, the path is field 1, occurrences are field 2 and symbols field 3; the
      moniker of a symbol is field 1, that of an occurrence field 2. */
  function FilterSymbol(c: Config, path: seq<Byte>, payload: seq<Byte>): Option<seq<Visit>> {
    if c.matchSymbol == None then Some([])
    else
      match ParseMessage(payload)
      case None => None
      case Some(m) =>
        Some(if c.matchSymbol.value(StringField(m, 1)) && c.visitsSymbols then [VisitSymbol(path, m)] else [])
  }

  function FilterOccurrence(c: Config, path: seq<Byte>, payload: seq<Byte>): Option<seq<Visit>> {
    if c.matchOccurrence == None then Some([])
    else
      match ParseMessage(payload)
      case None => None
      case Some(m) =>
        Some(if c.matchOccurrence.value(StringField(m, 2)) && c.visitsOccurrences then [VisitOccurrence(path, m)] else [])
  }

  /** Visits a parsed symbol or occurrence whose moniker the predicate accepts. */
  function FilterField(c: Config, path: seq<Byte>, f: Field): Option<seq<Visit>> {
    if !f.value.LengthDelimited? then Some([])
    else if f.number == 3 then FilterSymbol(c, path, f.value.payload)
    else if f.number == 2 then FilterOccurrence(c, path, f.value.payload)
    else Some([])
  }

  function FilterFields(c: Config, path: seq<Byte>, fields: seq<Field>): Option<seq<Visit>> {
    if fields == [] then Some([]) else
      match FilterField(c, path, fields[0])
      case None => None
      case Some(v) =>
        match FilterFields(c, path, fields[1..])
        case None => None
        case Some(rest) => Some(v + rest)
  }

  function FilterDocument(c: Config, payload: seq<Byte>): Option<seq<Visit>> {
    match ParseMessage(payload)
    case None => None
    case Some(doc) =>
      var path := StringField(doc, 1);
      match FilterFields(c, path, doc)
      case None => None
      case Some(rest) =>
        Some((if c.matchDocument.Some? && c.matchDocument.value(path) && c.visitsDocuments then [VisitDocument(doc)] else []) + rest)
  }

  function FilterDocuments(c: Config, fields: seq<Field>): Option<seq<Visit>> {
    if fields == [] then Some([]) else
      match (if fields[0].number == 2 && fields[0].value.LengthDelimited?
             then FilterDocument(c, fields[0].value.payload) else Some([]))
      case None => None
      case Some(v) =>
        match FilterDocuments(c, fields[1..])
        case None => None
        case Some(rest) => Some(v + rest)
  }

  /** Everything a full parse of the index finds, in order, filtered by the predicates. */
  function ParseAndFilter(c: Config, s: seq<Byte>): Option<seq<Visit>> {
    match ParseMessage(s)
    case None => None
    case Some(fields) => FilterDocuments(c, fields)
  }

  // ----- the scanner's reading, of any bytes

  /** How a scan comes to its end, if it does. */
  datatype Ending = Finished | Failed | Endless

  /** What a scan has visited, and how it ended. The visits of an endless scan mean nothing. */
  datatype Scanned = Scanned(visits: seq<Visit>, ending: Ending) {
    /** What is visited before an error stays visited. */
    function Then(next: Scanned): Scanned {
      if ending.Finished? then Scanned(visits + next.visits, next.ending) else this
    }
  }

  const NOTHING := Scanned([], Finished)
  const FAILURE := Scanned([], Failed)
  const NO_END := Scanned([], Endless)

  /** The tag of a length-delimited field, in one byte. */
  predicate IsBlockTag(tag: Byte) {
    tag < 128 && tag / 8 > 0 && tag % 8 == 2
  }

  /** Where a seek from a position by an unsigned 64-bit length leads. The length is taken as a
      signed number, so one of 2^63 or more leads backwards; there is no position below zero,
      nor one of 2^63 or more. */
  function Seek(pos: nat, length: nat): (r: Option<nat>)
    ensures r.Some? ==> r.value < TWO_TO_63
  {
    var target := pos + if length < TWO_TO_63 then length else length - TWO_TO_64;
    if 0 <= target < TWO_TO_63 then Some(target) else None
  }

  /** Where skipping the field at a position takes the reader, possibly beyond the end; none is
      an error. */
  function SkipAt(s: seq<Byte>, p: nat): (r: Option<nat>)
    requires p < |s|
    ensures r.Some? ==> r.value < TWO_TO_63
  {
    match DecodeVarint(s[p + 1..])
    case None => None
    case Some((n, k)) => Seek(p + 1 + k, n)
  }

  /** The outcome of a search: a payload, which is empty if the field is missing, an error, or none ever. */
  datatype Found = Value(payload: seq<Byte>) | NoValue | NoEnd

  /** The payload of the first field with the number from a position on, within so many rounds. */
  function FindFrom(s: seq<Byte>, number: nat, p: nat, rounds: nat): Found
    decreases rounds
  {
    if p >= |s| then Value([])
    else if rounds == 0 then NoEnd
    else if !IsBlockTag(s[p]) then NoValue
    else if s[p] / 8 == number then
      match ParseBlock(s[p..]) case None => NoValue case Some(b) => Value(b.payload)
    else
      match SkipAt(s, p)
      case None => NoValue
      case Some(q) => FindFrom(s, number, q, rounds - 1)
  }

  /** A search that has not ended after as many rounds as there are bytes never does. */
  function FindBlock(s: seq<Byte>, number: nat): Found {
    FindFrom(s, number, 0, |s|)
  }

  /** Looks only at the moniker, and parses the entry in full when it is to be visited. */
  function ScanEntry(c: Config, path: seq<Byte>, kind: EntryKind, payload: seq<Byte>): Scanned
    requires kind.MatcherIn(c).Some?
  {
    match FindBlock(payload, kind.Key())
    case NoValue => FAILURE
    case NoEnd => NO_END
    case Value(moniker) =>
      var matches := kind.MatcherIn(c).value;
      if matches(moniker) && kind.VisitedBy(c) then
        match ParseMessage(payload) case None => FAILURE case Some(m) => Scanned([kind.VisitOf(path, m)], Finished)
      else NOTHING
  }

  /** One round of a scan: what it visits, and where it leaves the reader. */
  datatype Step = Step(scanned: Scanned, next: nat)

  /** The field of a document at a position. */
  function ScanBlock(c: Config, path: seq<Byte>, s: seq<Byte>, p: nat): Step
    requires p < |s|
  {
    if !IsBlockTag(s[p]) then Step(FAILURE, p)
    else
      var kind := KindOf(c, s[p] / 8);
      if kind == None then
        match SkipAt(s, p) case None => Step(FAILURE, p) case Some(q) => Step(NOTHING, q)
      else
        match ParseBlock(s[p..])
        case None => Step(FAILURE, p)
        case Some(b) => Step(ScanEntry(c, path, kind.value, b.payload), p + b.size)
  }

  function ScanBlocksFrom(c: Config, path: seq<Byte>, s: seq<Byte>, p: nat, rounds: nat): Scanned
    decreases rounds
  {
    if p >= |s| then NOTHING
    else if rounds == 0 then NO_END
    else
      var step := ScanBlock(c, path, s, p);
      if step.scanned.ending.Finished? then step.scanned.Then(ScanBlocksFrom(c, path, s, step.next, rounds - 1))
      else step.scanned
  }

  function ScanBlocks(c: Config, path: seq<Byte>, s: seq<Byte>): Scanned {
    ScanBlocksFrom(c, path, s, 0, |s|)
  }

  /** The document as a whole, if it is wanted. */
  function ScanWhole(c: Config, path: seq<Byte>, payload: seq<Byte>): Scanned {
    if c.matchDocument.Some? && c.matchDocument.value(path) && c.visitsDocuments then
      match ParseMessage(payload) case None => FAILURE case Some(doc) => Scanned([VisitDocument(doc)], Finished)
    else NOTHING
  }

  function ScanDocument(c: Config, payload: seq<Byte>): Scanned {
    match FindBlock(payload, DOCUMENT_RELATIVE_PATH)
    case NoValue => FAILURE
    case NoEnd => NO_END
    case Value(path) => ScanWhole(c, path, payload).Then(ScanBlocks(c, path, payload))
  }

  /** The field of an index at a position. */
  function ScanIndexBlock(c: Config, s: seq<Byte>, p: nat): Step
    requires p < |s|
  {
    if !IsBlockTag(s[p]) then Step(FAILURE, p)
    else if s[p] / 8 != INDEX_DOCUMENTS then
      match SkipAt(s, p) case None => Step(FAILURE, p) case Some(q) => Step(NOTHING, q)
    else
      match ParseBlock(s[p..])
      case None => Step(FAILURE, p)
      case Some(b) => Step(ScanDocument(c, b.payload), p + b.size)
  }

  function ScanIndexFrom(c: Config, s: seq<Byte>, p: nat, rounds: nat): Scanned
    decreases rounds
  {
    if p >= |s| then NOTHING
    else if rounds == 0 then NO_END
    else
      var step := ScanIndexBlock(c, s, p);
      if step.scanned.ending.Finished? then step.scanned.Then(ScanIndexFrom(c, s, step.next, rounds - 1))
      else step.scanned
  }

  function ScanIndex(c: Config, s: seq<Byte>): Scanned {
    ScanIndexFrom(c, s, 0, |s|)
  }

  // ----- the two agree on well-formed indexes

  /** A message whose key field comes once, with only length-delimited fields before it. */
  predicate HasKey(s: seq<Byte>, number: nat) {
    s == [] ||
    match ParseBlock(s)
    case None => false
    case Some(b) =>
      var rest := s[b.size..];
      if b.number == number then ParseMessage(rest).Some? && !Mentions(ParseMessage(rest).value, number)
      else HasKey(rest, number)
  }

  /** All fields are length-delimited, and entries have their keys. */
  predicate HasEntries(s: seq<Byte>) {
    s == [] ||
    match ParseBlock(s)
    case None => false
    case Some(b) =>
      && (b.number == DOCUMENT_SYMBOLS ==> HasKey(b.payload, SYMBOL_INFORMATION_SYMBOL))
      && (b.number == DOCUMENT_OCCURRENCES ==> HasKey(b.payload, OCCURRENCE_SYMBOL))
      && HasEntries(s[b.size..])
  }

  predicate WellFormedIndex(s: seq<Byte>) {
    s == [] ||
    match ParseBlock(s)
    case None => false
    case Some(b) =>
      && (b.number == INDEX_DOCUMENTS ==> HasKey(b.payload, DOCUMENT_RELATIVE_PATH) && HasEntries(b.payload))
      && WellFormedIndex(s[b.size..])
  }

  /** Of a block, reading and skipping take the same bytes. */
  lemma BlockIsSkipped(s: seq<Byte>, p: nat)
    requires p < |s| < TWO_TO_63 && ParseBlock(s[p..]).Some?
    ensures IsBlockTag(s[p]) && ParseBlock(s[p..]).value.number == s[p] / 8
    ensures SkipAt(s, p) == Some(p + ParseBlock(s[p..]).value.size)
    ensures |ParseBlock(s[p..]).value.payload| < |s|
    ensures s[p..][ParseBlock(s[p..]).value.size..] == s[p + ParseBlock(s[p..]).value.size..]
  {
    hide DecodeVarint;
    assert s[p..][1..] == s[p + 1..];
  }

  /** The rest of a message behind its first block. */
  lemma MessageTail(s: seq<Byte>)
    requires s != [] && ParseBlock(s).Some?
    ensures var b := ParseBlock(s).value;
            ParseMessage(s) == match ParseMessage(s[b.size..])
                               case None => None
                               case Some(rest) => Some([Field(b.number, LengthDelimited(b.payload))] + rest)
  {
    hide ParseField, ParseBlock;
    BlockIsField(s);
  }

  /** A key that comes later in a message is the key of the rest. */
  lemma KeyTail(s: seq<Byte>, number: nat, p: nat)
    requires p < |s| < TWO_TO_63 && HasKey(s[p..], number)
    ensures ParseBlock(s[p..]).Some?
    ensures var b := ParseBlock(s[p..]).value;
            if b.number == number then
              && ParseMessage(s[p..]).Some?
              && StringField(ParseMessage(s[p..]).value, number) == b.payload
            else HasKey(s[p + b.size..], number)
  {
    hide ParseField, ParseBlock, SkipAt;
    BlockIsSkipped(s, p);
    MessageTail(s[p..]);
    hide ParseMessage;
    var b := ParseBlock(s[p..]).value;
    if b.number == number {
      StringFieldCons(Field(b.number, LengthDelimited(b.payload)), ParseMessage(s[p + b.size..]).value, number);
    }
  }

  lemma EmptyMessage(number: nat)
    ensures ParseMessage([]) == Some([]) && StringField([], number) == []
  {
  }

  lemma EmptyFields(c: Config, path: seq<Byte>)
    ensures ParseMessage([]) == Some([]) && FilterFields(c, path, []) == Some([]) && FilterDocuments(c, []) == Some([])
  {
  }

  /** The value of a string field that the first field may give. */
  lemma StringFieldCons(f: Field, rest: seq<Field>, number: nat)
    ensures f.number == number && f.value.LengthDelimited? && !Mentions(rest, number) ==>
              StringField([f] + rest, number) == f.value.payload
    ensures f.number != number ==> StringField([f] + rest, number) == StringField(rest, number)
  {
    assert ([f] + rest)[1..] == rest;
    NoMention(rest, number);
  }

  lemma {:induction false} KeyIsFoundFrom(s: seq<Byte>, number: nat, p: nat, rounds: nat)
    requires p <= |s| < TWO_TO_63 && HasKey(s[p..], number) && rounds >= |s| - p
    ensures ParseMessage(s[p..]).Some? && FindFrom(s, number, p, rounds) == Value(StringField(ParseMessage(s[p..]).value, number))
    decreases |s| - p
  {
    hide ParseBlock, ParseMessage, SkipAt, HasKey, StringField;
    if p < |s| {
      KeyTail(s, number, p);
      BlockIsSkipped(s, p);
      var b := ParseBlock(s[p..]).value;
      if b.number != number {
        KeyIsFoundFrom(s, number, p + b.size, rounds - 1);
        MessageTail(s[p..]);
        StringFieldCons(Field(b.number, LengthDelimited(b.payload)), ParseMessage(s[p + b.size..]).value, number);
      }
    } else {
      assert s[p..] == [];
      EmptyMessage(number);
    }
  }

  lemma KeyIsFound(s: seq<Byte>, number: nat)
    requires HasKey(s, number) && |s| < TWO_TO_63
    ensures ParseMessage(s).Some? && FindBlock(s, number) == Value(StringField(ParseMessage(s).value, number))
  {
    assert s[0..] == s;
    KeyIsFoundFrom(s, number, 0, |s|);
  }

  lemma {:induction false} NoMention(fields: seq<Field>, number: nat)
    ensures !Mentions(fields, number) ==> StringField(fields, number) == []
  {
    if fields != [] && !Mentions(fields, number) {
      assert fields[0].number != number;
      assert !Mentions(fields[1..], number);
    }
  }

  /** The scan and the filtered parse succeed with the same visits. */
  predicate Same(scanned: Scanned, filtered: Option<seq<Visit>>) {
    scanned.ending.Finished? && filtered == Some(scanned.visits)
  }

  lemma EntryAgrees(c: Config, path: seq<Byte>, kind: EntryKind, number: nat, payload: seq<Byte>)
    requires KindOf(c, number) == Some(kind) && HasKey(payload, kind.Key()) && |payload| < TWO_TO_63
    ensures Same(ScanEntry(c, path, kind, payload), FilterField(c, path, Field(number, LengthDelimited(payload))))
  {
    hide ParseMessage, FindBlock, HasKey;
    KeyIsFound(payload, kind.Key());
  }

  lemma BlockAgrees(c: Config, path: seq<Byte>, s: seq<Byte>, p: nat)
    requires p < |s| < TWO_TO_63 && HasEntries(s[p..])
    ensures var b, step := ParseBlock(s[p..]).value, ScanBlock(c, path, s, p);
            && step.next == p + b.size
            && Same(step.scanned, FilterField(c, path, Field(b.number, LengthDelimited(b.payload))))
  {
    hide ParseBlock, SkipAt, HasKey, ScanEntry;
    BlockIsSkipped(s, p);
    var b := ParseBlock(s[p..]).value;
    var kind := KindOf(c, b.number);
    if kind.Some? {
      EntryAgrees(c, path, kind.value, b.number, b.payload);
    }
  }

  lemma FilterFieldsCons(c: Config, path: seq<Byte>, f: Field, rest: seq<Field>)
    requires FilterField(c, path, f).Some? && FilterFields(c, path, rest).Some?
    ensures FilterFields(c, path, [f] + rest) == Some(FilterField(c, path, f).value + FilterFields(c, path, rest).value)
  {
    hide FilterField;
    assert ([f] + rest)[1..] == rest;
  }

  lemma EntriesTail(s: seq<Byte>, p: nat)
    requires p < |s| < TWO_TO_63 && HasEntries(s[p..])
    ensures ParseBlock(s[p..]).Some? && HasEntries(s[p + ParseBlock(s[p..]).value.size..])
  {
    hide ParseBlock, SkipAt, HasKey;
    BlockIsSkipped(s, p);
  }

  lemma {:induction false} BlocksAgreeFrom(c: Config, path: seq<Byte>, s: seq<Byte>, p: nat, rounds: nat)
    requires p <= |s| < TWO_TO_63 && HasEntries(s[p..]) && rounds >= |s| - p
    ensures ParseMessage(s[p..]).Some?
    ensures Same(ScanBlocksFrom(c, path, s, p, rounds), FilterFields(c, path, ParseMessage(s[p..]).value))
    decreases |s| - p
  {
    hide ParseBlock, ParseMessage, ScanBlock, FilterField, FilterFields, HasEntries, SkipAt;
    if p < |s| {
      BlockAgrees(c, path, s, p);
      EntriesTail(s, p);
      BlockIsSkipped(s, p);
      MessageTail(s[p..]);
      var b := ParseBlock(s[p..]).value;
      BlocksAgreeFrom(c, path, s, p + b.size, rounds - 1);
      FilterFieldsCons(c, path, Field(b.number, LengthDelimited(b.payload)), ParseMessage(s[p + b.size..]).value);
    } else {
      assert s[p..] == [];
      EmptyFields(c, path);
    }
  }

  lemma BlocksAgree(c: Config, path: seq<Byte>, s: seq<Byte>)
    requires HasEntries(s) && |s| < TWO_TO_63
    ensures ParseMessage(s).Some?
    ensures Same(ScanBlocks(c, path, s), FilterFields(c, path, ParseMessage(s).value))
  {
    assert s[0..] == s;
    BlocksAgreeFrom(c, path, s, 0, |s|);
  }

  lemma DocumentAgrees(c: Config, payload: seq<Byte>)
    requires HasKey(payload, DOCUMENT_RELATIVE_PATH) && HasEntries(payload) && |payload| < TWO_TO_63
    ensures Same(ScanDocument(c, payload), FilterDocument(c, payload))
  {
    hide ParseMessage, FindBlock, HasKey, HasEntries, ScanBlocks, FilterFields;
    KeyIsFound(payload, DOCUMENT_RELATIVE_PATH);
    BlocksAgree(c, StringField(ParseMessage(payload).value, DOCUMENT_RELATIVE_PATH), payload);
  }

  lemma IndexBlockAgrees(c: Config, s: seq<Byte>, p: nat)
    requires p < |s| < TWO_TO_63 && WellFormedIndex(s[p..])
    ensures var b, step := ParseBlock(s[p..]).value, ScanIndexBlock(c, s, p);
            && step.next == p + b.size
            && Same(step.scanned, if b.number == INDEX_DOCUMENTS then FilterDocument(c, b.payload) else Some([]))
  {
    hide ParseBlock, SkipAt, HasKey, HasEntries, ScanDocument, FilterDocument;
    BlockIsSkipped(s, p);
    var b := ParseBlock(s[p..]).value;
    if b.number == INDEX_DOCUMENTS {
      DocumentAgrees(c, b.payload);
    }
  }

  lemma FilterDocumentsCons(c: Config, f: Field, rest: seq<Field>)
    requires f.value.LengthDelimited? && FilterDocuments(c, rest).Some?
    requires f.number == INDEX_DOCUMENTS ==> FilterDocument(c, f.value.payload).Some?
    ensures FilterDocuments(c, [f] + rest) ==
            Some((if f.number == INDEX_DOCUMENTS then FilterDocument(c, f.value.payload).value else []) + FilterDocuments(c, rest).value)
  {
    hide FilterDocument;
    assert ([f] + rest)[1..] == rest;
  }

  lemma IndexTail(s: seq<Byte>, p: nat)
    requires p < |s| < TWO_TO_63 && WellFormedIndex(s[p..])
    ensures ParseBlock(s[p..]).Some? && WellFormedIndex(s[p + ParseBlock(s[p..]).value.size..])
  {
    hide ParseBlock, SkipAt, HasKey, HasEntries;
    BlockIsSkipped(s, p);
  }

  lemma {:induction false} ScanAgreesFrom(c: Config, s: seq<Byte>, p: nat, rounds: nat)
    requires p <= |s| < TWO_TO_63 && WellFormedIndex(s[p..]) && rounds >= |s| - p
    ensures Same(ScanIndexFrom(c, s, p, rounds), ParseAndFilter(c, s[p..]))
    decreases |s| - p
  {
    hide ParseBlock, ParseMessage, ScanIndexBlock, FilterDocument, FilterDocuments, WellFormedIndex, SkipAt;
    if p < |s| {
      IndexBlockAgrees(c, s, p);
      IndexTail(s, p);
      BlockIsSkipped(s, p);
      MessageTail(s[p..]);
      var b := ParseBlock(s[p..]).value;
      ScanAgreesFrom(c, s, p + b.size, rounds - 1);
      FilterDocumentsCons(c, Field(b.number, LengthDelimited(b.payload)), ParseMessage(s[p + b.size..]).value);
    } else {
      assert s[p..] == [];
      EmptyFields(c, []);
    }
  }

  /** On every well-formed index the scanner visits exactly what a full parse and the predicates
      give: the same documents, symbols and occurrences, in order, with the right paths. */
  lemma ScanIsParseAndFilter(c: Config, s: seq<Byte>)
    requires WellFormedIndex(s) && |s| < TWO_TO_63
    ensures ScanIndex(c, s).ending.Finished? && ParseAndFilter(c, s) == Some(ScanIndex(c, s).visits)
  {
    assert s[0..] == s;
    ScanAgreesFrom(c, s, 0, |s|);
  }

  /** Indexes written block by block are well-formed. */
  lemma EncodedIsWellFormed(number: nat, payload: seq<Byte>, rest: seq<Byte>)
    requires 1 <= number < 16 && |payload| < TWO_TO_63 && WellFormedIndex(rest)
    requires number == INDEX_DOCUMENTS ==> HasKey(payload, DOCUMENT_RELATIVE_PATH) && HasEntries(payload)
    ensures WellFormedIndex(EncodeBlock(number, payload) + rest)
  {
    hide ParseBlock, HasKey, HasEntries;
    BlockRoundTrip(number, payload, rest);
    var e := EncodeBlock(number, payload);
    assert (e + rest)[|e|..] == rest;
  }

  // ----- what the search finds in a message that parses

  /** The payload of the first field with the number, empty if there is none or it has no payload. */
  function FirstPayload(fields: seq<Field>, number: nat): seq<Byte> {
    if fields == [] then []
    else if fields[0].number != number then FirstPayload(fields[1..], number)
    else if fields[0].value.LengthDelimited? then fields[0].value.payload
    else []
  }

  /** All fields up to the first with the number are length-delimited ones with a tag of one byte. */
  predicate IsPlainUpTo(s: seq<Byte>, number: nat)
    decreases |s|
  {
    s == [] ||
    (IsBlockTag(s[0]) && ParseField(s).Some? && (s[0] / 8 == number || IsPlainUpTo(s[ParseField(s).value.size..], number)))
  }

  /** A field with such a tag is a block. */
  lemma FieldIsBlock(s: seq<Byte>)
    requires s != [] && IsBlockTag(s[0]) && ParseField(s).Some?
    ensures ParseBlock(s).Some?
    ensures var b := ParseBlock(s).value;
            ParseField(s) == Some(Sized(Field(b.number, LengthDelimited(b.payload)), b.size)) && b.number == s[0] / 8
  {
    hide DecodeVarint;
    OneByteVarint(s);
    assert ParseBlock(s).Some?;
    BlockIsField(s);
  }

  lemma FirstPayloadCons(f: Field, rest: seq<Field>, number: nat)
    ensures FirstPayload([f] + rest, number) ==
            if f.number != number then FirstPayload(rest, number)
            else if f.value.LengthDelimited? then f.value.payload else []
  {
    assert ([f] + rest)[1..] == rest;
  }

  lemma ParsedHead(s: seq<Byte>)
    requires s != [] && ParseMessage(s).Some?
    ensures ParseField(s).Some? && ParseMessage(s[ParseField(s).value.size..]).Some?
    ensures ParseMessage(s).value == [ParseField(s).value.field] + ParseMessage(s[ParseField(s).value.size..]).value
  {
    hide ParseField;
  }

  lemma PlainHead(s: seq<Byte>, number: nat)
    requires s != [] && ParseField(s).Some?
    ensures IsPlainUpTo(s, number) <==>
            IsBlockTag(s[0]) && (s[0] / 8 == number || IsPlainUpTo(s[ParseField(s).value.size..], number))
  {
    hide ParseField;
  }

  lemma NothingIsPlain(number: nat)
    ensures IsPlainUpTo([], number) && ParseMessage([]) == Some([]) && FirstPayload([], number) == []
  {
  }

  lemma {:induction false} FoundIffPlainFrom(s: seq<Byte>, number: nat, p: nat, rounds: nat)
    requires p <= |s| < TWO_TO_63 && ParseMessage(s[p..]).Some? && rounds >= |s| - p
    ensures FindFrom(s, number, p, rounds) ==
            if IsPlainUpTo(s[p..], number) then Value(FirstPayload(ParseMessage(s[p..]).value, number)) else NoValue
    decreases |s| - p
  {
    hide ParseBlock, ParseField, ParseMessage, SkipAt, IsPlainUpTo, FirstPayload;
    if p < |s| {
      var m := s[p..];
      ParsedHead(m);
      PlainHead(m, number);
      if IsBlockTag(s[p]) {
        FieldIsBlock(m);
        BlockIsSkipped(s, p);
        var b := ParseBlock(m).value;
        FirstPayloadCons(ParseField(m).value.field, ParseMessage(s[p + b.size..]).value, number);
        if s[p] / 8 != number {
          FoundIffPlainFrom(s, number, p + b.size, rounds - 1);
        }
      }
    } else {
      assert s[p..] == [];
      NothingIsPlain(number);
    }
  }

  /** In a message that parses in full, the search finds the first field with the number exactly
      when all fields up to it are length-delimited ones with a tag of one byte; otherwise it errs. */
  lemma FoundIffPlain(s: seq<Byte>, number: nat)
    requires |s| < TWO_TO_63 && ParseMessage(s).Some?
    ensures FindBlock(s, number) ==
            if IsPlainUpTo(s, number) then Value(FirstPayload(ParseMessage(s).value, number)) else NoValue
  {
    assert s[0..] == s;
    FoundIffPlainFrom(s, number, 0, |s|);
  }

  /** An occurrence with a range and a role, and no symbol. */
  const NO_SYMBOL: seq<Byte> := [0x0A, 3, 1, 2, 3, 0x18, 1]

  lemma RoleParses()
    ensures ParseMessage([0x18, 1]) == Some([Field(3, Varint(1))])
  {
    var s: seq<Byte> := [0x18, 1];
    OneByteVarint(s);
    assert s[1..] == [1] && s[2..] == [];
    OneByteVarint([1]);
    hide DecodeVarint;
    assert ParseField(s) == Some(Sized(Field(3, Varint(1)), 2));
    hide ParseField;
    assert ParseMessage(s[2..]) == Some([]);
    assert [Field(3, Varint(1))] + [] == [Field(3, Varint(1))];
  }

  lemma RangeIsBlock()
    ensures ParseBlock(NO_SYMBOL) == Some(Block(1, [1, 2, 3], 5))
  {
    hide DecodeVarint;
    OneByteVarint(NO_SYMBOL[1..]);
    assert NO_SYMBOL[2..5] == [1, 2, 3];
  }

  lemma NoSymbolParses()
    ensures ParseMessage(NO_SYMBOL) == Some([Field(1, LengthDelimited([1, 2, 3])), Field(3, Varint(1))])
    ensures ParseField(NO_SYMBOL).Some? && ParseField(NO_SYMBOL).value.size == 5
  {
    hide ParseBlock, ParseField, ParseMessage;
    RangeIsBlock();
    RoleParses();
    BlockIsField(NO_SYMBOL);
    MessageTail(NO_SYMBOL);
    assert NO_SYMBOL[5..] == [0x18, 1];
    assert [Field(1, LengthDelimited([1, 2, 3]))] + [Field(3, Varint(1))] == [Field(1, LengthDelimited([1, 2, 3])), Field(3, Varint(1))];
  }

  /** It parses in full, and yet every scan that matches occurrences aborts on it. */
  lemma NoSymbolAborts(c: Config, path: seq<Byte>)
    requires c.matchOccurrence.Some?
    ensures ParseMessage(NO_SYMBOL).Some? && ScanEntry(c, path, OccurrenceEntry, NO_SYMBOL) == FAILURE
  {
    NoSymbolParses();
    hide ParseMessage, ParseField, FindFrom;
    assert NO_SYMBOL[5..][0] == 0x18;
    FoundIffPlain(NO_SYMBOL, OCCURRENCE_SYMBOL);
  }

  // ----- what is visited, one by one

  /** The payload is a document of the index. */
  predicate IsDocument(index: seq<Field>, payload: seq<Byte>) {
    Field(2, LengthDelimited(payload)) in index
  }

  /** The document with this path has a field with this number and payload. */
  ghost predicate HasEntry(index: seq<Field>, path: seq<Byte>, number: nat, payload: seq<Byte>) {
    exists document ::
      && IsDocument(index, document) && ParseMessage(document).Some?
      && path == StringField(ParseMessage(document).value, 1)
      && Field(number, LengthDelimited(payload)) in ParseMessage(document).value
  }

  /** Exactly these visits are called for: a symbol for every field 3 of a document whose field 1 the
      predicate accepts, an occurrence for every field 2 whose field 2 it accepts, each with the path
      in the document's field 1, and a document for every field 2 of the index whose path it accepts. */
  ghost predicate IsCalledFor(c: Config, index: seq<Field>, v: Visit) {
    match v
    case VisitSymbol(path, m) =>
      && c.visitsSymbols && c.matchSymbol.Some? && c.matchSymbol.value(StringField(m, 1))
      && exists payload :: HasEntry(index, path, 3, payload) && ParseMessage(payload) == Some(m)
    case VisitOccurrence(path, m) =>
      && c.visitsOccurrences && c.matchOccurrence.Some? && c.matchOccurrence.value(StringField(m, 2))
      && exists payload :: HasEntry(index, path, 2, payload) && ParseMessage(payload) == Some(m)
    case VisitDocument(m) =>
      && c.visitsDocuments && c.matchDocument.Some? && c.matchDocument.value(StringField(m, 1))
      && exists payload :: IsDocument(index, payload) && ParseMessage(payload) == Some(m)
  }

  lemma {:induction false} FieldsVisits(c: Config, path: seq<Byte>, fields: seq<Field>, v: Visit)
    requires FilterFields(c, path, fields).Some?
    ensures v in FilterFields(c, path, fields).value <==>
            exists f :: f in fields && FilterField(c, path, f).Some? && v in FilterField(c, path, f).value
  {
    hide FilterField;
    if fields != [] {
      FieldsVisits(c, path, fields[1..], v);
      assert fields == [fields[0]] + fields[1..];
      if f :| f in fields[1..] && FilterField(c, path, f).Some? && v in FilterField(c, path, f).value {
        assert f in fields;
      }
      assert fields[0] in fields;
    }
  }

  /** What the fields of a document with a path call for. */
  ghost predicate FieldsCallFor(c: Config, path: seq<Byte>, fields: seq<Field>, v: Visit) {
    match v
    case VisitSymbol(p, m) =>
      && p == path && c.visitsSymbols && c.matchSymbol.Some? && c.matchSymbol.value(StringField(m, 1))
      && exists payload :: Field(3, LengthDelimited(payload)) in fields && ParseMessage(payload) == Some(m)
    case VisitOccurrence(p, m) =>
      && p == path && c.visitsOccurrences && c.matchOccurrence.Some? && c.matchOccurrence.value(StringField(m, 2))
      && exists payload :: Field(2, LengthDelimited(payload)) in fields && ParseMessage(payload) == Some(m)
    case VisitDocument(_) => false
  }

  lemma {:induction false} AllFieldsParse(c: Config, path: seq<Byte>, fields: seq<Field>, f: Field)
    requires FilterFields(c, path, fields).Some? && f in fields
    ensures FilterField(c, path, f).Some?
  {
    hide FilterField;
    if f != fields[0] {
      assert f in fields[1..];
      AllFieldsParse(c, path, fields[1..], f);
    }
  }

  lemma FieldsVisitExactly(c: Config, path: seq<Byte>, fields: seq<Field>, v: Visit)
    requires FilterFields(c, path, fields).Some?
    ensures v in FilterFields(c, path, fields).value <==> FieldsCallFor(c, path, fields, v)
  {
    hide FilterFields, ParseMessage, StringField;
    FieldsVisits(c, path, fields, v);
    if f :| f in fields && FilterField(c, path, f).Some? && v in FilterField(c, path, f).value {
      assert f == Field(f.number, LengthDelimited(f.value.payload));
    }
    if FieldsCallFor(c, path, fields, v) {
      var number := if v.VisitSymbol? then 3 else 2;
      var payload :| Field(number, LengthDelimited(payload)) in fields && ParseMessage(payload) == Some(v.message);
      AllFieldsParse(c, path, fields, Field(number, LengthDelimited(payload)));
    }
  }

  lemma DocumentVisitsExactly(c: Config, payload: seq<Byte>, v: Visit)
    requires FilterDocument(c, payload).Some?
    ensures ParseMessage(payload).Some?
    ensures var doc := ParseMessage(payload).value;
            v in FilterDocument(c, payload).value <==>
            || FieldsCallFor(c, StringField(doc, 1), doc, v)
            || (v == VisitDocument(doc) && c.visitsDocuments && c.matchDocument.Some? && c.matchDocument.value(StringField(doc, 1)))
  {
    hide FilterFields, ParseMessage, StringField, FieldsCallFor;
    var doc := ParseMessage(payload).value;
    FieldsVisitExactly(c, StringField(doc, 1), doc, v);
  }

  lemma {:induction false} DocumentsVisits(c: Config, fields: seq<Field>, v: Visit)
    requires FilterDocuments(c, fields).Some?
    ensures v in FilterDocuments(c, fields).value <==>
            exists payload :: IsDocument(fields, payload) && FilterDocument(c, payload).Some? && v in FilterDocument(c, payload).value
  {
    hide FilterDocument;
    if fields != [] {
      var f := fields[0];
      DocumentsVisits(c, fields[1..], v);
      assert fields == [f] + fields[1..];
      if payload :| IsDocument(fields[1..], payload) && FilterDocument(c, payload).Some? && v in FilterDocument(c, payload).value {
        assert IsDocument(fields, payload);
      }
      if f.number == 2 && f.value.LengthDelimited? {
        assert f == Field(2, LengthDelimited(f.value.payload)) && IsDocument(fields, f.value.payload);
      }
      if payload :| IsDocument(fields, payload) && FilterDocument(c, payload).Some? && v in FilterDocument(c, payload).value {
        assert Field(2, LengthDelimited(payload)) == f || IsDocument(fields[1..], payload);
      }
    }
  }

  lemma {:induction false} AllDocumentsParse(c: Config, fields: seq<Field>, payload: seq<Byte>)
    requires FilterDocuments(c, fields).Some? && IsDocument(fields, payload)
    ensures FilterDocument(c, payload).Some?
  {
    hide FilterDocument;
    if Field(2, LengthDelimited(payload)) != fields[0] {
      assert Field(2, LengthDelimited(payload)) in fields[1..];
      AllDocumentsParse(c, fields[1..], payload);
    }
  }

  /** A scan of a well-formed index visits what is called for, and nothing else. */
  lemma VisitedIffCalledFor(c: Config, s: seq<Byte>, v: Visit)
    requires WellFormedIndex(s) && |s| < TWO_TO_63
    ensures ParseMessage(s).Some?
    ensures v in ScanIndex(c, s).visits <==> IsCalledFor(c, ParseMessage(s).value, v)
  {
    hide ScanIndex, WellFormedIndex, ParseMessage, FilterDocuments, FilterDocument, StringField, FieldsCallFor, IsDocument;
    ScanIsParseAndFilter(c, s);
    var index := ParseMessage(s).value;
    DocumentsVisits(c, index, v);
    if payload :| IsDocument(index, payload) && FilterDocument(c, payload).Some? && v in FilterDocument(c, payload).value {
      DocumentVisitsExactly(c, payload, v);
      CalledForIn(c, index, payload, v);
    }
    if IsCalledFor(c, index, v) {
      var payload := DocumentOf(c, index, v);
      AllDocumentsParse(c, index, payload);
      DocumentVisitsExactly(c, payload, v);
    }
  }

  lemma CalledForIn(c: Config, index: seq<Field>, document: seq<Byte>, v: Visit)
    requires IsDocument(index, document) && ParseMessage(document).Some?
    requires var doc := ParseMessage(document).value;
             || FieldsCallFor(c, StringField(doc, 1), doc, v)
             || (v == VisitDocument(doc) && c.visitsDocuments && c.matchDocument.Some? && c.matchDocument.value(StringField(doc, 1)))
    ensures IsCalledFor(c, index, v)
  {
    hide ParseMessage, StringField, IsDocument;
    var doc := ParseMessage(document).value;
    if v.VisitSymbol? {
      var payload :| Field(3, LengthDelimited(payload)) in doc && ParseMessage(payload) == Some(v.message);
      assert HasEntry(index, v.path, 3, payload);
    } else if v.VisitOccurrence? {
      var payload :| Field(2, LengthDelimited(payload)) in doc && ParseMessage(payload) == Some(v.message);
      assert HasEntry(index, v.path, 2, payload);
    }
  }

  lemma DocumentOf(c: Config, index: seq<Field>, v: Visit) returns (document: seq<Byte>)
    requires IsCalledFor(c, index, v)
    ensures IsDocument(index, document) && ParseMessage(document).Some?
    ensures var doc := ParseMessage(document).value;
            || FieldsCallFor(c, StringField(doc, 1), doc, v)
            || (v == VisitDocument(doc) && c.visitsDocuments && c.matchDocument.Some? && c.matchDocument.value(StringField(doc, 1)))
  {
    hide ParseMessage, StringField, IsDocument;
    if v.VisitDocument? {
      document :| IsDocument(index, document) && ParseMessage(document) == Some(v.message);
    } else {
      var number := if v.VisitSymbol? then 3 else 2;
      var payload :| HasEntry(index, v.path, number, payload) && ParseMessage(payload) == Some(v.message);
      document :| && IsDocument(index, document) && ParseMessage(document).Some?
                  && v.path == StringField(ParseMessage(document).value, 1)
                  && Field(number, LengthDelimited(payload)) in ParseMessage(document).value;
    }
  }

  // ----- single entries and documents, of any bytes

  /** What a symbol or an occurrence comes to, given how the search for its moniker, field 1 or 2, ends:
      nothing if it is not wanted, a visit if it is and parses, and an error otherwise. */
  lemma EntryOutcome(c: Config, path: seq<Byte>, payload: seq<Byte>)
    ensures c.matchSymbol.Some? ==>
              ScanEntry(c, path, SymbolEntry, payload) ==
              match FindBlock(payload, 1)
              case NoEnd => Scanned([], Endless)
              case NoValue => Scanned([], Failed)
              case Value(moniker) =>
                if !c.matchSymbol.value(moniker) || !c.visitsSymbols then Scanned([], Finished)
                else if ParseMessage(payload) == None then Scanned([], Failed)
                else Scanned([VisitSymbol(path, ParseMessage(payload).value)], Finished)
    ensures c.matchOccurrence.Some? ==>
              ScanEntry(c, path, OccurrenceEntry, payload) ==
              match FindBlock(payload, 2)
              case NoEnd => Scanned([], Endless)
              case NoValue => Scanned([], Failed)
              case Value(moniker) =>
                if !c.matchOccurrence.value(moniker) || !c.visitsOccurrences then Scanned([], Finished)
                else if ParseMessage(payload) == None then Scanned([], Failed)
                else Scanned([VisitOccurrence(path, ParseMessage(payload).value)], Finished)
  {
    hide FindBlock, ParseMessage;
  }
}
