/** The chatbot answer (aiapp/api.py, _build_chat_answer) and the
    /chat/search handler (chat_search), which validates the request, runs
    search and renders its first five rows as a short numbered answer. */
module Chat {
  import opened Text
  import opened Http
  import opened Seqs
  import opened Metadata
  import opened Validation
  import opened Search

  const MaxAnswerItems: nat := 5
  const MaxMessageLength: nat := 20000

  /** What _build_chat_answer reads from one result: the file name, the
      snippet, and the str() of score, page and line, which are None when
      the result has no such key. */
  datatype Hit = Hit(file: string, snippet: string, score: Option<string>, page: Option<string>, line: Option<string>)

  /** str() of the float cents / 100 as round(..., 2) leaves it: the
      shortest decimal, so 90 is "0.9" and 85 is "0.85". */
  function ScoreText(cents: nat): (r: string)
    ensures forall i :: 0 <= i < |r| ==> r[i] == '.' || '0' <= r[i] <= '9'
    ensures cents < 100 ==> |r| >= 3 && r[..2] == "0."
  {
    NatToString(cents / 100) + "." + Fraction(cents % 100)
  }

  /** The digits after the point: one when the hundredths digit is 0. */
  function Fraction(c: nat): (f: string)
    requires c < 100
    ensures 1 <= |f| <= 2 && IsDigits(f)
  {
    if c % 10 == 0 then [Digit(c / 10)] else [Digit(c / 10), Digit(c % 10)]
  }

  lemma FractionValue(c: nat)
    requires c < 100
    ensures Hundredths(Fraction(c)) == c
    ensures |Fraction(c)| == 2 ==> Fraction(c)[1] != '0'
  {
    var f := Fraction(c);
    var t := [Digit(c / 10)];
    assert t[..0] == [];
    assert DecimalValue(t) == c / 10;
    if c % 10 != 0 {
      assert f[..1] == t;
      assert DecimalValue(f) == DecimalValue(t) * 10 + c % 10;
    }
  }

  /** The hundredths a decimal fraction of one or two digits stands for:
      "9" is 90 and "85" is 85. */
  function Hundredths(f: string): nat
    requires IsDigits(f)
  {
    DecimalValue(f) * (if |f| == 1 then 10 else 1)
  }

  /** ScoreText reads back as cents / 100: one '.', the whole part spelled
      before it, and a fraction of one or two digits with no trailing zero
      after it. */
  lemma ScoreTextReadsBack(cents: nat)
    ensures var r := ScoreText(cents); var k := IndexOf(r, '.');
      && 0 < k && '.' !in r[k + 1..]
      && IsDigits(r[..k]) && DecimalValue(r[..k]) == cents / 100
      && IsDigits(r[k + 1..]) && 1 <= |r[k + 1..]| <= 2
      && Hundredths(r[k + 1..]) == cents % 100
      && (|r[k + 1..]| == 2 ==> r[k + 2] != '0')
  {
    var whole := NatToString(cents / 100);
    var frac := Fraction(cents % 100);
    var r := ScoreText(cents);
    NatToStringValue(cents / 100);
    assert '.' !in whole by {
      forall i | 0 <= i < |whole| ensures whole[i] != '.' {
        assert '0' <= whole[i] <= '9';
      }
    }
    IndexOfAfter(whole, '.', frac);
    FractionValue(cents % 100);
    assert r[..|whole|] == whole;
    assert r[|whole| + 1..] == frac;
  }

  /** A search row as _build_chat_answer sees it: every key is present. */
  function HitOfRow(row: ResultRow): Hit {
    Hit(row.file, row.snippet, Some(ScoreText(row.scoreCents)), Some(NatToString(row.page)), Some(NatToString(row.line)))
  }

  function Hits(rows: seq<ResultRow>): seq<Hit> {
    seq(|rows|, k requires 0 <= k < |rows| => HitOfRow(rows[k]))
  }

  /** meta_bits: "score", "page" and "line", in that order, each only when
      present. */
  function MetaBits(h: Hit): (bits: seq<string>)
    ensures |bits| == (if h.score.Some? then 1 else 0) + (if h.page.Some? then 1 else 0) + (if h.line.Some? then 1 else 0)
    ensures h.score.Some? ==> bits[0] == "score " + h.score.value
    ensures h.page.Some? ==> bits[if h.score.Some? then 1 else 0] == "page " + h.page.value
    ensures h.line.Some? ==> bits[|bits| - 1] == "line " + h.line.value
  {
    (if h.score.Some? then ["score " + h.score.value] else [])
    + (if h.page.Some? then ["page " + h.page.value] else [])
    + (if h.line.Some? then ["line " + h.line.value] else [])
  }

  /** meta: the bits in parentheses, or nothing when there are none. */
  function Meta(h: Hit): string {
    var bits := MetaBits(h);
    if bits == [] then "" else " (" + Join(bits, ", ") + ")"
  }

  /** The first line of the i-th item: the stripped snippet, or a
      "Match in" line when it is blank. */
  function FirstLine(i: nat, h: Hit): string {
    var snippet := Strip(h.snippet);
    if snippet != [] then NatToString(i) + ") " + snippet
    else NatToString(i) + ") Match in " + h.file + Meta(h)
  }

  /** The file line of an item, present when the file name is not empty. */
  function FileLines(h: Hit): seq<string> {
    if h.file != [] then ["   \U{2022} file: " + h.file + Meta(h)] else []
  }

  function ItemLines(i: nat, h: Hit): seq<string> {
    [FirstLine(i, h)] + FileLines(h)
  }

  /** Item i has one or two lines, and the first starts with its number. */
  lemma ItemNumbered(i: nat, h: Hit)
    ensures 1 <= |ItemLines(i, h)| <= 2 && (|ItemLines(i, h)| == 2 <==> h.file != [])
    ensures var n := NatToString(i) + ") ";
            |FirstLine(i, h)| >= |n| && FirstLine(i, h)[..|n|] == n
  {
    var n := NatToString(i) + ") ";
    var snippet := Strip(h.snippet);
    if snippet != [] {
      assert (n + snippet)[..|n|] == n;
    } else {
      assert (n + ("Match in " + h.file + Meta(h)))[..|n|] == n;
      assert n + "Match in " + h.file + Meta(h) == n + ("Match in " + h.file + Meta(h));
    }
  }

  /** The lines of each hit, numbered from 1 as enumerate(top, start=1)
      numbers them. */
  function Items(top: seq<Hit>): (items: seq<seq<string>>)
    ensures |items| == |top|
  {
    Numbered(top, 1, ItemLines)
  }

  /** The k-th item (counting from 0) holds the lines of the k-th hit,
      numbered k + 1. */
  lemma ItemAt(top: seq<Hit>, k: nat)
    requires k < |top|
    ensures Items(top)[k] == ItemLines(k + 1, top[k])
  {
    NumberedAt(top, 1, ItemLines, k);
  }

  function Top(hits: seq<Hit>): (top: seq<Hit>)
    ensures |top| == if |hits| < MaxAnswerItems then |hits| else MaxAnswerItems
    ensures top == hits[..|top|]
  {
    if |hits| <= MaxAnswerItems then hits else hits[..MaxAnswerItems]
  }

  const HeaderStart: string := "Here\U{2019}s what " + "I found for: \U{201C}"

  function Header(q: string): seq<string> {
    [HeaderStart + q + "\U{201D}", ""]
  }

  /** The closing sentence, written in short pieces so that facts about its
      characters stay cheap to check. */
  const ClosingSentence: string :=
    "If you want, " + "tell me what " + "exact field/" + "value you " + "want (name, "
    + "enrolled no, " + "decision etc.) " + "and I\U{2019}ll " + "extract only " + "that."

  const Closing: seq<string> := ["", ClosingSentence]

  function NotFound(q: string): string {
    "I couldn\U{2019}t find " + "anything relevant " + "for: \U{201C}" + q + "\U{201D}."
  }

  /** The lines of a non-empty answer. */
  function AnswerLines(q: string, hits: seq<Hit>): seq<string> {
    Header(q) + Flatten(Items(Top(hits))) + Closing
  }

  /** _build_chat_answer: the fixed sentence for no results, otherwise the
      lines joined by newlines. */
  function ChatAnswer(query: string, hits: seq<Hit>): (text: string)
    ensures text == NotFound(Strip(query)) <==> hits == []
  {
    var q := Strip(query);
    if hits == [] then NotFound(q)
    else
      AnswerNotNotFound(q, hits);
      Join(AnswerLines(q, hits), "\n")
  }

  /** An answer with hits starts with the header's 'H', not with the 'I' of
      the "couldn't find" sentence. */
  lemma AnswerNotNotFound(q: string, hits: seq<Hit>)
    requires hits != []
    ensures Join(AnswerLines(q, hits), "\n") != NotFound(q)
  {
    var lines := AnswerLines(q, hits);
    assert lines[0] == HeaderStart + q + "\U{201D}" && |lines| >= 2;
    assert Join(lines, "\n") == lines[0] + "\n" + Join(lines[1..], "\n");
    assert Join(lines, "\n")[0] == 'H' && NotFound(q)[0] == 'I';
  }

  /** The k-th of the top hits (counting from 0) is rendered as item k + 1,
      between the header and the items before it and the rest. */
  lemma AnswerItem(q: string, hits: seq<Hit>, k: nat)
    requires k < |Top(hits)|
    ensures var items := Items(Top(hits));
            AnswerLines(q, hits)
            == Header(q) + Flatten(items[..k]) + ItemLines(k + 1, Top(hits)[k]) + Flatten(items[k + 1..]) + Closing
  {
    var items := Items(Top(hits));
    ItemAt(Top(hits), k);
    FlattenAt(items, k);
    AppendAssoc(Header(q), Flatten(items[..k]) + items[k], Flatten(items[k + 1..]));
    AppendAssoc(Header(q), Flatten(items[..k]), items[k]);
  }

  /** An answer has the header, one or two lines for each of the first
      min(5, n) hits, and the closing lines. */
  lemma AnswerLinesCount(q: string, hits: seq<Hit>)
    ensures var n := if |hits| < MaxAnswerItems then |hits| else MaxAnswerItems;
            4 + n <= |AnswerLines(q, hits)| <= 4 + 2 * n
  {
    var top := Top(hits);
    var items := Items(top);
    forall k | 0 <= k < |items| ensures 1 <= |items[k]| <= 2 {
      ItemAt(top, k);
      ItemNumbered(k + 1, top[k]);
    }
    FlattenBounds(items);
  }

  /** Only the first five hits shape the answer. */
  lemma ChatAnswerTopFive(query: string, hits: seq<Hit>, more: seq<Hit>)
    requires |hits| >= MaxAnswerItems
    ensures ChatAnswer(query, hits + more) == ChatAnswer(query, hits)
  {
    assert Top(hits + more) == Top(hits);
  }

  predicate NoNewline(s: string) {
    '\n' !in s
  }

  predicate HitNoNewline(h: Hit) {
    && NoNewline(h.file) && NoNewline(h.snippet)
    && (h.score.Some? ==> NoNewline(h.score.value))
    && (h.page.Some? ==> NoNewline(h.page.value))
    && (h.line.Some? ==> NoNewline(h.line.value))
  }

  predicate HitsNoNewline(hits: seq<Hit>) {
    forall k :: 0 <= k < |hits| ==> HitNoNewline(hits[k])
  }

  lemma HitsTail(hits: seq<Hit>)
    requires hits != [] && HitsNoNewline(hits)
    ensures HitNoNewline(hits[0]) && HitsNoNewline(hits[1..])
  {
    assert forall k :: 0 <= k < |hits| - 1 ==> hits[1..][k] == hits[k + 1];
  }

  lemma MetaNoNewline(h: Hit)
    requires HitNoNewline(h)
    ensures NoNewline(Meta(h))
  {
    var bits := MetaBits(h);
    assert forall k :: 0 <= k < |bits| ==> NoNewline(bits[k]);
    JoinAvoids(bits, ", ", '\n');
  }

  predicate LinesNoNewline(lines: seq<string>) {
    forall l :: 0 <= l < |lines| ==> NoNewline(lines[l])
  }

  lemma FirstLineNoNewline(i: nat, h: Hit)
    requires HitNoNewline(h)
    ensures NoNewline(FirstLine(i, h))
  {
    var n := NatToString(i);
    DigitsNoNewline(n);
    ConcatNoNewline(n, ") ");
    var snippet := Strip(h.snippet);
    if snippet != [] {
      StripAvoids(h.snippet, '\n');
      ConcatNoNewline(n + ") ", snippet);
    } else {
      MetaNoNewline(h);
      ConcatNoNewline(n, ") Match in ");
      ConcatNoNewline(n + ") Match in ", h.file);
      ConcatNoNewline(n + ") Match in " + h.file, Meta(h));
    }
  }

  lemma FileLinesNoNewline(h: Hit)
    requires HitNoNewline(h)
    ensures LinesNoNewline(FileLines(h))
  {
    if h.file != [] {
      MetaNoNewline(h);
      ConcatNoNewline("   \U{2022} file: ", h.file);
      ConcatNoNewline("   \U{2022} file: " + h.file, Meta(h));
    }
  }

  lemma ItemLinesNoNewline(i: nat, h: Hit)
    requires HitNoNewline(h)
    ensures LinesNoNewline(ItemLines(i, h))
  {
    FirstLineNoNewline(i, h);
    FileLinesNoNewline(h);
    AppendNoNewline([FirstLine(i, h)], FileLines(h));
  }

  lemma DigitsNoNewline(s: string)
    requires forall k :: 0 <= k < |s| ==> '0' <= s[k] <= '9'
    ensures NoNewline(s)
  {
  }

  lemma AppendNoNewline(a: seq<string>, b: seq<string>)
    requires LinesNoNewline(a) && LinesNoNewline(b)
    ensures LinesNoNewline(a + b)
  {
    forall l | 0 <= l < |a + b| ensures NoNewline((a + b)[l]) {
      if l >= |a| {
        assert (a + b)[l] == b[l - |a|];
      }
    }
  }

  lemma {:induction false} NumberedNoNewline(top: seq<Hit>, start: nat)
    requires HitsNoNewline(top)
    ensures LinesNoNewline(Flatten(Numbered(top, start, ItemLines)))
    decreases |top|
  {
    if top != [] {
      FlattenNumbered(top, start, ItemLines);
      ItemLinesNoNewline(start, top[0]);
      HitsTail(top);
      NumberedNoNewline(top[1..], start + 1);
      AppendNoNewline(ItemLines(start, top[0]), Flatten(Numbered(top[1..], start + 1, ItemLines)));
    }
  }

  lemma ItemsNoNewline(top: seq<Hit>)
    requires HitsNoNewline(top)
    ensures LinesNoNewline(Flatten(Items(top)))
  {
    NumberedNoNewline(top, 1);
  }

  lemma HeaderNoNewline(q: string)
    requires NoNewline(q)
    ensures LinesNoNewline(Header(q))
  {
    assert NoNewline(HeaderStart) && NoNewline("\U{201D}");
  }

  lemma ConcatNoNewline(a: string, b: string)
    requires NoNewline(a) && NoNewline(b)
    ensures NoNewline(a + b)
  {
  }

  lemma ClosingNoNewline()
    ensures LinesNoNewline(Closing)
  {
    var s := "If you want, ";
    ConcatNoNewline(s, "tell me what ");
    s := s + "tell me what ";
    ConcatNoNewline(s, "exact field/");
    s := s + "exact field/";
    ConcatNoNewline(s, "value you ");
    s := s + "value you ";
    ConcatNoNewline(s, "want (name, ");
    s := s + "want (name, ";
    ConcatNoNewline(s, "enrolled no, ");
    s := s + "enrolled no, ";
    ConcatNoNewline(s, "decision etc.) ");
    s := s + "decision etc.) ";
    ConcatNoNewline(s, "and I\U{2019}ll ");
    s := s + "and I\U{2019}ll ";
    ConcatNoNewline(s, "extract only ");
    s := s + "extract only ";
    ConcatNoNewline(s, "that.");
    s := s + "that.";
    assert s == ClosingSentence;
  }

  /** When neither the query nor any hit holds a newline, the answer reads
      back, line by line, as exactly the header, the items and the closing
      lines. */
  lemma ChatAnswerSplits(query: string, hits: seq<Hit>)
    requires hits != []
    requires NoNewline(query) && HitsNoNewline(hits)
    ensures Split(ChatAnswer(query, hits), '\n') == AnswerLines(Strip(query), hits)
  {
    var q := Strip(query);
    var top := Top(hits);
    assert forall k :: 0 <= k < |top| ==> top[k] == hits[k];
    ItemsNoNewline(top);
    StripAvoids(query, '\n');
    HeaderNoNewline(q);
    ClosingNoNewline();
    AppendNoNewline(Header(q), Flatten(Items(top)));
    AppendNoNewline(Header(q) + Flatten(Items(top)), Closing);
    SplitJoin(AnswerLines(q, hits), '\n');
  }

  /** One turn of _build_chat_answer's loop: the i-th item's lines appended. */
  method AppendItem(lines: seq<string>, i: nat, h: Hit) returns (out: seq<string>)
    ensures out == lines + ItemLines(i, h)
  {
    var meta := Meta(h);
    var snippet := Strip(h.snippet);
    var number := NatToString(i);
    out := lines;
    if snippet != [] {
      out := out + [number + ") " + snippet];
    } else {
      out := out + [number + ") Match in " + h.file + meta];
    }
    assert out == lines + [FirstLine(i, h)];
    AppendAssoc(lines, [FirstLine(i, h)], FileLines(h));
    if h.file != [] {
      out := out + ["   \U{2022} file: " + h.file + meta];
    } else {
      assert out == out + FileLines(h);
    }
  }

  /** _build_chat_answer, with the lines list built by appends in a loop. */
  method BuildChatAnswer(query: string, hits: seq<Hit>) returns (text: string)
    ensures text == ChatAnswer(query, hits)
  {
    var q := Strip(query);
    if hits == [] {
      return NotFound(q);
    }
    var top := Top(hits);
    ghost var items := Items(top);
    var lines := Header(q);
    var i := 0;
    assert items[..0] == [];
    while i < |top|
      invariant 0 <= i <= |top|
      invariant lines == Header(q) + Flatten(items[..i])
    {
      FlattenExtend(items, i);
      ItemAt(top, i);
      AppendAssoc(Header(q), Flatten(items[..i]), items[i]);
      lines := AppendItem(lines, i + 1, top[i]);
      i := i + 1;
    }
    assert items[..i] == items;
    lines := lines + Closing;
    return Join(lines, "\n");
  }

  datatype Role = User | Assistant

  datatype ChatMessage = ChatMessage(role: Role, content: string)

  /** The request body; the test-only delay knobs are left out. */
  datatype ChatSearchRequest = ChatSearchRequest(query: string, folderId: string, files: seq<string>, messages: seq<ChatMessage>)

  /** The Field bounds of the request and of each prior message. */
  predicate ValidChatSearchRequest(req: ChatSearchRequest) {
    && ValidSearchRequest(AsSearchRequest(req))
    && forall k :: 0 <= k < |req.messages| ==> 1 <= |req.messages[k].content| <= MaxMessageLength
  }

  /** The SearchRequest that chat_search hands to search. */
  function AsSearchRequest(req: ChatSearchRequest): SearchRequest {
    SearchRequest(req.query, req.folderId, req.files)
  }

  datatype ChatResponse = ChatResponse(assistantText: string, results: seq<ResultRow>)

  /** chat_search: validation first, then search (which validates again and
      refuses a blank query), then the answer over search's rows. */
  function ChatSearchResult(fs: seq<Folder>, req: ChatSearchRequest, disk: Disk): (r: Result<ChatResponse>)
    ensures ValidationResult(fs, req.folderId, Checks(req.files), disk).Failure?
            ==> r == Failure(ValidationResult(fs, req.folderId, Checks(req.files), disk).error)
    ensures r.Success? <==> SearchResult(fs, AsSearchRequest(req), disk).Success?
    ensures r.Failure? ==> r.error == SearchResult(fs, AsSearchRequest(req), disk).error
    ensures r.Success? ==> r.value.results == SearchResult(fs, AsSearchRequest(req), disk).value
  {
    match ValidationResult(fs, req.folderId, Checks(req.files), disk)
    case Failure(e) => Failure(e)
    case Success(_) =>
      match SearchResult(fs, AsSearchRequest(req), disk)
      case Failure(e) => Failure(e)
      case Success(rows) => Success(ChatResponse(ChatAnswer(req.query, Hits(rows)), rows))
  }

  /** The meta bits of a search row: all three, in order. */
  function RowBits(row: ResultRow): seq<string> {
    ["score " + ScoreText(row.scoreCents), "page " + NatToString(row.page), "line " + NatToString(row.line)]
  }

  function RowMeta(row: ResultRow): string {
    " (" + Join(RowBits(row), ", ") + ")"
  }

  lemma MetaOfRow(row: ResultRow)
    ensures Meta(HitOfRow(row)) == RowMeta(row)
  {
    var bits := MetaBits(HitOfRow(row));
    assert |bits| == 3 && bits[0] == RowBits(row)[0] && bits[1] == RowBits(row)[1] && bits[2] == RowBits(row)[2];
    assert bits == RowBits(row);
  }

  /** search's snippets have no surrounding whitespace. */
  lemma SnippetStripped(q: string, f: string)
    ensures Strip(Snippet(q, f)) == Snippet(q, f)
  {
    var s := Snippet(q, f);
    assert s[0] == 'F' && s[|s| - 1] == ')';
    StripOfStripped(s);
  }

  /** A search row is rendered as its snippet and, for a named file, a file
      line with all three meta bits. */
  lemma RowItemLines(i: nat, row: ResultRow)
    requires row.snippet == Snippet(row.query, row.file)
    ensures ItemLines(i, HitOfRow(row))
            == [NatToString(i) + ") " + row.snippet]
               + (if row.file != [] then ["   \U{2022} file: " + row.file + RowMeta(row)] else [])
  {
    SnippetStripped(row.query, row.file);
    MetaOfRow(row);
  }

  lemma SnippetNoNewline(q: string, f: string)
    requires NoNewline(q) && NoNewline(f)
    ensures NoNewline(Snippet(q, f))
  {
  }

  lemma RowsNoNewline(folderId: string, files: seq<string>, q: string)
    requires NoNewline(q) && forall j :: 0 <= j < |files| ==> NoNewline(files[j])
    ensures HitsNoNewline(Hits(Rows(folderId, files, q)))
  {
    var rows := Rows(folderId, files, q);
    forall j | 0 <= j < |rows| ensures HitNoNewline(Hits(rows)[j]) {
      var row := rows[j];
      assert row == MakeRow(j + 1, folderId, files[j], q);
      SnippetNoNewline(q, files[j]);
      assert NoNewline(ScoreText(row.scoreCents));
      assert NoNewline(NatToString(row.page)) && NoNewline(NatToString(row.line));
    }
  }

  /** The rows of a successful chat search are search's rows over the
      stripped query. */
  lemma ChatSearchRows(fs: seq<Folder>, req: ChatSearchRequest, disk: Disk)
    requires ChatSearchResult(fs, req, disk).Success?
    ensures var r := ChatSearchResult(fs, req, disk).value;
            && Strip(req.query) != []
            && r.results == Rows(req.folderId, req.files, Strip(req.query))
            && r.assistantText == ChatAnswer(req.query, Hits(r.results))
  {
  }

  /** The answer over search's rows for files and a query without newlines
      is never the "couldn't find" sentence and reads back as its lines. */
  lemma RowsAnswer(query: string, folderId: string, files: seq<string>)
    requires files != []
    requires NoNewline(query) && forall j :: 0 <= j < |files| ==> NoNewline(files[j])
    ensures var q := Strip(query);
            var hits := Hits(Rows(folderId, files, q));
            && ChatAnswer(query, hits) != NotFound(q)
            && Split(ChatAnswer(query, hits), '\n') == AnswerLines(q, hits)
  {
    var q := Strip(query);
    StripAvoids(query, '\n');
    RowsNoNewline(folderId, files, q);
    var hits := Hits(Rows(folderId, files, q));
    assert |hits| == |files| > 0;
    AnswerReadsBack(query, hits);
  }

  lemma AnswerReadsBack(query: string, hits: seq<Hit>)
    requires hits != []
    requires NoNewline(query) && HitsNoNewline(hits)
    ensures ChatAnswer(query, hits) != NotFound(Strip(query))
    ensures Split(ChatAnswer(query, hits), '\n') == AnswerLines(Strip(query), hits)
  {
    ChatAnswerSplits(query, hits);
  }

  /** For a request pydantic accepts, a successful chat search never gives
      the "couldn't find" sentence, and its text reads back, line by line, as
      exactly the answer's lines. */
  lemma ChatSearchText(fs: seq<Folder>, req: ChatSearchRequest, disk: Disk)
    requires ValidChatSearchRequest(req) && ChatSearchResult(fs, req, disk).Success?
    requires NoNewline(req.query) && forall j :: 0 <= j < |req.files| ==> NoNewline(req.files[j])
    ensures var r := ChatSearchResult(fs, req, disk).value;
            var q := Strip(req.query);
            && r.assistantText != NotFound(q)
            && Split(r.assistantText, '\n') == AnswerLines(q, Hits(r.results))
  {
    ChatSearchRows(fs, req, disk);
    RowsAnswer(req.query, req.folderId, req.files);
  }

  /** Item k + 1 of the answer over search's rows is the k-th file's
      snippet, followed, for a named file, by its file line with score, page
      and line. */
  lemma RowsItem(folderId: string, files: seq<string>, q: string, k: nat)
    requires k < |files| && k < MaxAnswerItems
    ensures var row := MakeRow(k + 1, folderId, files[k], q);
            Items(Top(Hits(Rows(folderId, files, q))))[k]
            == [NatToString(k + 1) + ") " + Snippet(q, files[k])]
               + (if files[k] != [] then ["   \U{2022} file: " + files[k] + RowMeta(row)] else [])
  {
    var rows := Rows(folderId, files, q);
    assert Top(Hits(rows))[k] == HitOfRow(rows[k]);
    ItemAt(Top(Hits(rows)), k);
    RowItemLines(k + 1, rows[k]);
  }

  /** Item k + 1 of a successful chat search, for each of the first
      min(5, n) requested files, is the k-th file's snippet followed (for a
      named file) by its file line with score, page and line. */
  lemma ChatSearchItem(fs: seq<Folder>, req: ChatSearchRequest, disk: Disk, k: nat)
    requires ChatSearchResult(fs, req, disk).Success?
    requires k < |req.files| && k < MaxAnswerItems
    ensures var r := ChatSearchResult(fs, req, disk).value;
            var q := Strip(req.query);
            var row := MakeRow(k + 1, req.folderId, req.files[k], q);
            Items(Top(Hits(r.results)))[k]
            == [NatToString(k + 1) + ") " + Snippet(q, req.files[k])]
               + (if req.files[k] != [] then ["   \U{2022} file: " + req.files[k] + RowMeta(row)] else [])
  {
    ChatSearchRows(fs, req, disk);
    RowsItem(req.folderId, req.files, Strip(req.query), k);
  }

  /** chat_search. */
  method ChatSearch(fs: seq<Folder>, req: ChatSearchRequest, disk: Disk) returns (r: Result<ChatResponse>)
    ensures r == ChatSearchResult(fs, req, disk)
  {
    var checked := ValidateFolderFiles(fs, req.folderId, req.files, disk);
    if checked.Failure? {
      return Failure(checked.error);
    }
    var base := Search.Search(fs, AsSearchRequest(req), disk);
    if base.Failure? {
      return Failure(base.error);
    }
    var text := BuildChatAnswer(req.query, Hits(base.value));
    return Success(ChatResponse(text, base.value));
  }
}
