/**
 * The statement splitting of the schema initialiser: the schema text is cut
 * at every ';', each chunk is trimmed, and empty chunks and chunks starting
 * with "--" are dropped. A corrected variant, `CodeStatements`, removes comment
 * lines before that. Reading the file and running the statements are not part
 * of this model.
 */
module DbInit {
  import opened Text

  /** The filter: non-empty and not starting with a comment marker. */
  predicate Keep(s: string) {
    |s| > 0 && !StartsWith(s, "--")
  }

  /** `.map(s => s.trim())`. */
  function Trimmed(chunks: seq<string>): (r: seq<string>)
    ensures |r| == |chunks|
  {
    if chunks == [] then [] else [Trim(chunks[0])] + Trimmed(chunks[1..])
  }

  lemma {:induction false} TrimmedAt(chunks: seq<string>)
    ensures forall k :: 0 <= k < |chunks| ==> Trimmed(chunks)[k] == Trim(chunks[k])
  {
    if chunks != [] {
      TrimmedAt(chunks[1..]);
    }
  }

  /** `.filter(Keep)`. */
  function Kept(pieces: seq<string>): seq<string> {
    if pieces == [] then []
    else (if Keep(pieces[0]) then [pieces[0]] else []) + Kept(pieces[1..])
  }

  /** The statements of a schema text. */
  function SplitStatements(sql: string): seq<string> {
    Kept(Trimmed(Split(sql, ';')))
  }

  /** The filter keeps exactly the pieces that pass it, both ways. */
  lemma {:induction false} KeptExactly(pieces: seq<string>)
    ensures forall st :: st in Kept(pieces) <==> st in pieces && Keep(st)
  {
    if pieces != [] {
      KeptExactly(pieces[1..]);
      assert pieces == [pieces[0]] + pieces[1..];
    }
  }

  /** The filter distributes over concatenation, so it keeps order. */
  lemma {:induction false} KeptConcat(a: seq<string>, b: seq<string>)
    ensures Kept(a + b) == Kept(a) + Kept(b)
  {
    if a != [] {
      KeptConcat(a[1..], b);
      assert (a + b)[1..] == a[1..] + b;
    } else {
      assert a + b == b;
    }
  }

  lemma {:induction false} KeptAtMost(pieces: seq<string>)
    ensures |Kept(pieces)| <= |pieces|
  {
    if pieces != [] {
      KeptAtMost(pieces[1..]);
    }
  }

  /** `st` is one of the pieces, trimmed, and passes the filter. */
  predicate TrimmedPieceKept(chunks: seq<string>, st: string) {
    exists k :: 0 <= k < |chunks| && st == Trim(chunks[k]) && Keep(st)
  }

  /** Trimming then filtering keeps exactly the trimmed pieces that pass the filter. */
  lemma {:induction false} KeptTrimmedExactly(chunks: seq<string>)
    ensures forall st :: st in Kept(Trimmed(chunks)) <==> TrimmedPieceKept(chunks, st)
  {
    var trimmed := Trimmed(chunks);
    KeptExactly(trimmed);
    TrimmedAt(chunks);
    forall st | st in Kept(trimmed)
      ensures TrimmedPieceKept(chunks, st)
    {
      var k :| 0 <= k < |trimmed| && trimmed[k] == st;
      assert st == Trim(chunks[k]);
    }
    forall st | TrimmedPieceKept(chunks, st)
      ensures st in Kept(trimmed)
    {
      var k :| 0 <= k < |chunks| && st == Trim(chunks[k]) && Keep(st);
      assert trimmed[k] == st;
    }
  }

  /** The statements are exactly the trimmed chunks between ';' that pass the filter. */
  lemma {:induction false} SplitStatementsExactly(sql: string)
    ensures forall st :: st in SplitStatements(sql) <==> TrimmedPieceKept(Split(sql, ';'), st)
  {
    KeptTrimmedExactly(Split(sql, ';'));
  }

  /** Each returned statement is non-empty, has no surrounding whitespace, holds no ';' and is not a comment. */
  lemma {:induction false} SplitStatementsWellFormed(sql: string)
    ensures forall st :: st in SplitStatements(sql) ==>
      && st != []
      && !IsJsWhitespace(st[0]) && !IsJsWhitespace(st[|st| - 1])
      && ';' !in st
      && !StartsWith(st, "--")
  {
    var chunks := Split(sql, ';');
    SplitStatementsExactly(sql);
    forall st | st in SplitStatements(sql)
      ensures ';' !in st
    {
      var k :| 0 <= k < |chunks| && st == Trim(chunks[k]) && Keep(st);
      TrimKeepsOut(chunks[k], ';');
    }
  }

  /** There are at most one more statements than there are ';' in the text. */
  lemma {:induction false} SplitStatementsCount(sql: string)
    ensures |SplitStatements(sql)| <= Count(sql, ';') + 1
  {
    KeptAtMost(Trimmed(Split(sql, ';')));
  }

  /**
   * A chunk that starts with a comment is dropped whole, with any SQL that
   * follows the comment on later lines before the next ';'.
   */
  lemma {:induction false} CommentChunkDropped(a: seq<string>, chunk: string, b: seq<string>)
    requires StartsWith(chunk, "--")
    ensures Kept(a + [Trim(chunk)] + b) == Kept(a) + Kept(b)
  {
    var t := Trim(chunk);
    TrimStartsWithComment(chunk);
    KeptConcat(a + [t], b);
    KeptConcat(a, [t]);
    assert Kept([t]) == [] by {
      assert [t][1..] == [];
    }
    assert Kept(a) + [] == Kept(a);
  }

  /** A text starting with "--" keeps that prefix when trimmed. */
  lemma {:induction false} TrimStartsWithComment(s: string)
    requires StartsWith(s, "--")
    ensures StartsWith(Trim(s), "--")
  {
    var t := TrimStart(s);
    assert t == s;
    var r := TrimEnd(t);
    assert !IsJsWhitespace(s[1]);
    assert |r| >= 2;
    assert r[..2] == s[..2];
  }

  /**
   * When the text starts with a comment, everything up to the first ';' is
   * lost, SQL on the lines after the comment included.
   */
  lemma {:induction false} LeadingCommentSwallowsStatement(chunk: string, rest: string)
    requires StartsWith(chunk, "--") && ';' !in chunk
    ensures SplitStatements(chunk + ";" + rest) == SplitStatements(rest)
  {
    SplitAfter(chunk, ';', rest);
    CommentChunkFirst(chunk, Split(rest, ';'));
  }

  lemma {:induction false} CommentChunkFirst(chunk: string, pieces: seq<string>)
    requires StartsWith(chunk, "--")
    ensures Kept(Trimmed([chunk] + pieces)) == Kept(Trimmed(pieces))
  {
    assert ([chunk] + pieces)[1..] == pieces;
    TrimStartsWithComment(chunk);
  }

  /**
   * A comment line followed by a statement, before the next ';': the whole
   * statement is lost, so the schema text "-- cities\nCREATE TABLE cities (id TEXT);"
   * yields no statement at all.
   */
  lemma {:induction false} CommentedStatementLost(comment: string, stmt: string, rest: string)
    requires StartsWith(comment, "--") && '\n' !in comment && ';' !in comment
    requires ';' !in stmt && Keep(Trim(stmt))
    ensures SplitStatements(comment + "\n" + stmt + ";" + rest) == SplitStatements(rest)
  {
    var chunk := comment + "\n" + stmt;
    assert chunk[..2] == comment[..2];
    NoSeparatorAcross(comment, stmt, ';');
    LeadingCommentSwallowsStatement(chunk, rest);
    assert chunk + ";" + rest == comment + "\n" + stmt + ";" + rest;
  }

  /** A schema made of one commented statement yields no statement. */
  lemma {:induction false} CommentedSchemaIsEmpty(comment: string, stmt: string)
    requires StartsWith(comment, "--") && '\n' !in comment && ';' !in comment
    requires ';' !in stmt && Keep(Trim(stmt))
    ensures SplitStatements(comment + "\n" + stmt + ";") == []
  {
    var s := comment + "\n" + stmt + ";";
    CommentedStatementLost(comment, stmt, "");
    AppendNothing(s);
    NoStatementsInEmptyText();
  }

  lemma {:induction false} AppendNothing(s: string)
    ensures s + "" == s
  {
  }

  lemma {:induction false} NoStatementsInEmptyText()
    ensures SplitStatements("") == []
  {
    assert Split("", ';') == [""];
    assert |Trim("")| == 0;
    assert Trimmed([""]) == [""];
  }

  /** Joining two texts without `c` by a line break gives a text without `c`. */
  lemma {:induction false} NoSeparatorAcross(a: string, b: string, c: char)
    requires c !in a && c !in b && c != '\n'
    ensures c !in a + "\n" + b
  {
    var t := a + "\n" + b;
    forall i | 0 <= i < |t|
      ensures t[i] != c
    {
      if i < |a| {
        assert t[i] == a[i];
      } else if i > |a| {
        assert t[i] == b[i - |a| - 1];
      }
    }
  }

  // ---------- statements with the comment lines removed ----------

  /** A line that is a comment once its indentation is trimmed. */
  predicate IsCommentLine(line: string) {
    StartsWith(Trim(line), "--")
  }

  /** The lines that are not comments, in order. */
  function CodeLines(lines: seq<string>): seq<string> {
    if lines == [] then []
    else (if IsCommentLine(lines[0]) then [] else [lines[0]]) + CodeLines(lines[1..])
  }

  /** A chunk with its comment lines removed. */
  function StripComments(chunk: string): string {
    Join(CodeLines(Split(chunk, '\n')), "\n")
  }

  function StripAll(chunks: seq<string>): (r: seq<string>)
    ensures |r| == |chunks|
  {
    if chunks == [] then [] else [StripComments(chunks[0])] + StripAll(chunks[1..])
  }

  /**
   * The splitting the initialiser evidently means: comment lines are removed
   * from each chunk before it is trimmed and filtered.
   */
  function CodeStatements(sql: string): seq<string> {
    Kept(Trimmed(StripAll(Split(sql, ';'))))
  }

  /** No line of `s` is a comment. */
  predicate NoCommentLines(s: string) {
    forall k :: 0 <= k < |Split(s, '\n')| ==> !IsCommentLine(Split(s, '\n')[k])
  }

  lemma {:induction false} CodeLinesKeepsCode(lines: seq<string>)
    requires forall k :: 0 <= k < |lines| ==> !IsCommentLine(lines[k])
    ensures CodeLines(lines) == lines
  {
    if lines != [] {
      CodeLinesKeepsCode(lines[1..]);
      assert [lines[0]] + lines[1..] == lines;
    }
  }

  /** A chunk without comment lines is left as it is. */
  lemma {:induction false} StripCommentsKeepsCode(chunk: string)
    requires NoCommentLines(chunk)
    ensures StripComments(chunk) == chunk
  {
    CodeLinesKeepsCode(Split(chunk, '\n'));
    JoinSplit(chunk, '\n');
  }

  /** A leading comment line is removed, and the statement after it kept. */
  lemma {:induction false} StripLeadingComment(comment: string, stmt: string)
    requires StartsWith(comment, "--") && '\n' !in comment
    requires NoCommentLines(stmt)
    ensures StripComments(comment + "\n" + stmt) == stmt
  {
    SplitAfter(comment, '\n', stmt);
    TrimStartsWithComment(comment);
    var lines := Split(stmt, '\n');
    assert ([comment] + lines)[1..] == lines;
    assert CodeLines([comment] + lines) == CodeLines(lines);
    StripCommentsKeepsCode(stmt);
  }

  /** Over a text with no comment lines the two splittings agree. */
  lemma {:induction false} StripAllKeepsCode(chunks: seq<string>)
    requires forall k :: 0 <= k < |chunks| ==> NoCommentLines(chunks[k])
    ensures StripAll(chunks) == chunks
  {
    if chunks != [] {
      StripCommentsKeepsCode(chunks[0]);
      StripAllKeepsCode(chunks[1..]);
      assert [chunks[0]] + chunks[1..] == chunks;
    }
  }

  lemma {:induction false} CodeStatementsAgree(sql: string)
    requires forall k :: 0 <= k < |Split(sql, ';')| ==> NoCommentLines(Split(sql, ';')[k])
    ensures CodeStatements(sql) == SplitStatements(sql)
  {
    StripAllKeepsCode(Split(sql, ';'));
  }

  /** With the comment lines removed, the statement after a comment line is kept, in its place. */
  lemma {:induction false} CommentedStatementKept(comment: string, stmt: string, rest: string)
    requires StartsWith(comment, "--") && '\n' !in comment && ';' !in comment
    requires ';' !in stmt && NoCommentLines(stmt) && Keep(Trim(stmt))
    ensures CodeStatements(comment + "\n" + stmt + ";" + rest) == [Trim(stmt)] + CodeStatements(rest)
  {
    var chunk := comment + "\n" + stmt;
    NoSeparatorAcross(comment, stmt, ';');
    SplitAfter(chunk, ';', rest);
    assert chunk + ";" + rest == comment + "\n" + stmt + ";" + rest;
    StripLeadingComment(comment, stmt);
    var pieces := Split(rest, ';');
    assert ([chunk] + pieces)[1..] == pieces;
    assert StripAll([chunk] + pieces) == [stmt] + StripAll(pieces);
    assert ([stmt] + StripAll(pieces))[1..] == StripAll(pieces);
    assert Trimmed([stmt] + StripAll(pieces)) == [Trim(stmt)] + Trimmed(StripAll(pieces));
    assert ([Trim(stmt)] + Trimmed(StripAll(pieces)))[1..] == Trimmed(StripAll(pieces));
  }
}
