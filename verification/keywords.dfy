/** The keyword list: its built-in default, the case-insensitive substring
    filter the content script applies to a job description, the combined
    description text it filters, and the popup's comma-separated editor
    format (src/content.js, src/popup/popup.js). */
module Keywords {
  import opened Text
  import opened Maybe

  /** The list used when storage holds no keywords. */
  const DefaultKeywords: seq<string> := ["JavaScript", "Python", "Go", "Remote"]

  /** The radar switch as stored: on unless it was explicitly switched off,
      so a missing setting counts as on. */
  predicate RadarOn(stored: Option<bool>) {
    stored != Some(false)
  }

  /** The keywords a page is scanned with: the stored list, unless it is
      missing or empty, in which case the built-in default. */
  function KeywordsInUse(stored: Option<seq<string>>): (ks: seq<string>)
    ensures |ks| > 0
    ensures stored.None? || stored.value == [] ==> ks == DefaultKeywords
    ensures stored.Some? && stored.value != [] ==> ks == stored.value
  {
    if stored.Some? && |stored.value| > 0 then stored.value else DefaultKeywords
  }

  // ---------------------------------------------------------------------------
  // Trimmed, non-empty pieces
  // ---------------------------------------------------------------------------

  /** `pieces.map(p => p.trim()).filter(p => p.length > 0)`, the map/filter chain
      both the description combiner and the keyword editor use. */
  function TrimmedPieces(pieces: seq<string>): (r: seq<string>)
    ensures |r| <= |pieces|
    ensures forall p :: p in r ==> |p| > 0 && Trimmed(p)
  {
    if |pieces| == 0 then [] else Kept(pieces[0]) + TrimmedPieces(pieces[1..])
  }

  /** What the chain keeps of one piece: its trim, unless that is empty. */
  function Kept(p: string): seq<string> {
    if Trim(p) != "" then [Trim(p)] else []
  }

  /** A piece survives exactly when it is not blank, and nothing else appears. */
  lemma {:induction false} TrimmedPiecesMembers(pieces: seq<string>)
    ensures forall i :: 0 <= i < |pieces| && Trim(pieces[i]) != "" ==> Trim(pieces[i]) in TrimmedPieces(pieces)
    ensures forall p :: p in TrimmedPieces(pieces) ==> exists i :: 0 <= i < |pieces| && Trim(pieces[i]) == p
  {
    if |pieces| > 0 {
      TrimmedPiecesMembers(pieces[1..]);
      assert forall i :: 1 <= i < |pieces| ==> pieces[i] == pieces[1..][i - 1];
    }
  }

  /** The map/filter chain treats the pieces one by one, in order. */
  lemma {:induction false} TrimmedPiecesConcat(a: seq<string>, b: seq<string>)
    ensures TrimmedPieces(a + b) == TrimmedPieces(a) + TrimmedPieces(b)
  {
    if |a| == 0 {
      assert a + b == b;
    } else {
      var p, x := a[0], a[1..];
      assert a == [p] + x;
      assert a + b == [p] + (x + b);
      TrimmedPiecesConcat(x, b);
      TrimmedPiecesConcatStep(p, x, b);
    }
  }

  /** The inductive step of `TrimmedPiecesConcat`: a piece put in front of
      both sides is filtered the same way. */
  lemma TrimmedPiecesConcatStep(p: string, x: seq<string>, b: seq<string>)
    requires TrimmedPieces(x + b) == TrimmedPieces(x) + TrimmedPieces(b)
    ensures TrimmedPieces([p] + (x + b)) == TrimmedPieces([p] + x) + TrimmedPieces(b)
  {
    var k, u, v := Kept(p), TrimmedPieces(x), TrimmedPieces(b);
    TrimmedPiecesCons(p, x + b);
    TrimmedPiecesCons(p, x);
    AppendAssoc(k, u, v);
  }

  /** Concatenation regroups freely. */
  lemma AppendAssoc(k: seq<string>, u: seq<string>, v: seq<string>)
    ensures k + (u + v) == (k + u) + v
  {
  }

  /** The map/filter chain on a list that starts with piece `p`. */
  lemma TrimmedPiecesCons(p: string, rest: seq<string>)
    ensures TrimmedPieces([p] + rest) == Kept(p) + TrimmedPieces(rest)
  {
    assert ([p] + rest)[0] == p;
    assert ([p] + rest)[1..] == rest;
  }

  // ---------------------------------------------------------------------------
  // Description text and keyword filter
  // ---------------------------------------------------------------------------

  /** The description the content script searches: the trimmed, non-blank
      paragraph texts joined by a blank line. */
  function CombinedText(paragraphs: seq<string>): (text: string)
    ensures Trimmed(text)
    ensures text == "" <==> forall i :: 0 <= i < |paragraphs| ==> Trim(paragraphs[i]) == ""
  {
    var parts := TrimmedPieces(paragraphs);
    var text := Join(parts, "\n\n");
    JoinOfTrimmedIsTrimmed(parts);
    TrimmedPiecesMembers(paragraphs);
    if parts == [] then
      assert forall i :: 0 <= i < |paragraphs| ==> Trim(paragraphs[i]) == "";
      text
    else
      assert parts[0] != "" && parts[0] in parts;
      JoinStartsWithFirst(parts, "\n\n");
      text
  }

  lemma {:induction false} JoinStartsWithFirst(parts: seq<string>, sep: string)
    requires |parts| > 0
    ensures parts[0] <= Join(parts, sep)
  {
  }

  lemma {:induction false} JoinOfTrimmedIsTrimmed(parts: seq<string>)
    requires forall p :: p in parts ==> |p| > 0 && Trimmed(p)
    ensures Trimmed(Join(parts, "\n\n"))
    ensures |parts| > 0 ==> |Join(parts, "\n\n")| > 0 && Join(parts, "\n\n")[|Join(parts, "\n\n")| - 1] == parts[|parts| - 1][|parts[|parts| - 1]| - 1]
  {
    if |parts| > 1 {
      JoinOfTrimmedIsTrimmed(parts[1..]);
      assert parts[1..][|parts[1..]| - 1] == parts[|parts| - 1];
    }
  }

  /** Every piece of a joined list occurs in the joined text. */
  lemma {:induction false} JoinContainsPart(parts: seq<string>, sep: string, i: nat)
    requires i < |parts|
    ensures Contains(Join(parts, sep), parts[i])
  {
    var j := Join(parts, sep);
    if |parts| == 1 {
      assert OccursAt(j, parts[i], 0);
    } else if i == 0 {
      assert OccursAt(j, parts[0], 0);
    } else {
      JoinContainsPart(parts[1..], sep, i - 1);
      var tail := Join(parts[1..], sep);
      assert j == (parts[0] + sep) + tail;
      assert j[|parts[0] + sep|..|j|] == tail;
      ContainsInSlice(j, |parts[0] + sep|, |j|, parts[i]);
    }
  }

  /** Keyword `k` appears in `text` ignoring ASCII case. */
  predicate Mentions(text: string, k: string) {
    Contains(Lower(text), Lower(k))
  }

  /** `keywords.filter(k => text.toLowerCase().includes(k.toLowerCase()))`:
      exactly the mentioned keywords, each as often as it is listed. */
  function FindKeywords(text: string, keywords: seq<string>): (found: seq<string>)
    ensures |found| <= |keywords|
    ensures forall k :: k in found <==> k in keywords && Mentions(text, k)
  {
    if |keywords| == 0 then []
    else
      var rest := FindKeywords(text, keywords[1..]);
      assert keywords == [keywords[0]] + keywords[1..];
      if Mentions(text, keywords[0]) then [keywords[0]] + rest else rest
  }

  /** Duplicates are kept: a mentioned keyword is found as often as it is
      listed, any other keyword never. */
  lemma {:induction false} FindKeywordsCounts(text: string, keywords: seq<string>, k: string)
    ensures multiset(FindKeywords(text, keywords))[k] == if Mentions(text, k) then multiset(keywords)[k] else 0
  {
    if |keywords| > 0 {
      FindKeywordsCounts(text, keywords[1..], k);
      assert keywords == [keywords[0]] + keywords[1..];
    }
  }

  /** The filter keeps the keyword list's order: filtering a concatenation is
      the concatenation of the filtered halves. */
  lemma {:induction false} FindKeywordsConcat(text: string, a: seq<string>, b: seq<string>)
    ensures FindKeywords(text, a + b) == FindKeywords(text, a) + FindKeywords(text, b)
  {
    if |a| == 0 {
      assert a + b == b;
    } else {
      var k, x := a[0], a[1..];
      var head := if Mentions(text, k) then [k] else [];
      calc {
        FindKeywords(text, a + b);
        { assert a + b == [k] + (x + b); }
        FindKeywords(text, [k] + (x + b));
        { FindKeywordsCons(text, k, x + b); }
        head + FindKeywords(text, x + b);
        { FindKeywordsConcat(text, x, b); }
        head + (FindKeywords(text, x) + FindKeywords(text, b));
        (head + FindKeywords(text, x)) + FindKeywords(text, b);
        { FindKeywordsCons(text, k, x); assert a == [k] + x; }
        FindKeywords(text, a) + FindKeywords(text, b);
      }
    }
  }

  /** Filtering a list that starts with `k`. */
  lemma FindKeywordsCons(text: string, k: string, rest: seq<string>)
    ensures FindKeywords(text, [k] + rest) ==
      (if Mentions(text, k) then [k] else []) + FindKeywords(text, rest)
  {
    assert ([k] + rest)[0] == k;
    assert ([k] + rest)[1..] == rest;
  }

  lemma ContainsTransitive(a: string, b: string, c: string)
    requires Contains(a, b) && Contains(b, c)
    ensures Contains(a, c)
  {
    var i: nat :| OccursAt(a, b, i);
    var j: nat :| OccursAt(b, c, j);
    OccursWithin(a, b, i, c, j);
  }

  /** An occurrence inside an occurrence is an occurrence, at the summed
      position. */
  lemma OccursWithin(a: string, b: string, i: nat, c: string, j: nat)
    requires OccursAt(a, b, i) && OccursAt(b, c, j)
    ensures OccursAt(a, c, i + j)
  {
    forall k | 0 <= k < |c| ensures a[i + j + k] == c[k] {
      assert a[i..i + |b|][j + k] == b[j + k];
      assert b[j..j + |c|][k] == c[k];
    }
  }

  /** A keyword mentioned by any single (trimmed) paragraph is found in the
      combined description, whatever the other paragraphs say. */
  lemma KeywordInParagraphIsFound(paragraphs: seq<string>, keywords: seq<string>, p: nat, k: string)
    requires p < |paragraphs| && k in keywords
    requires Mentions(Trim(paragraphs[p]), k)
    ensures k in FindKeywords(CombinedText(paragraphs), keywords)
  {
    var parts := TrimmedPieces(paragraphs);
    var t := Trim(paragraphs[p]);
    var text := CombinedText(paragraphs);
    TrimmedPiecesMembers(paragraphs);
    if t == "" {
      var i: nat :| OccursAt(Lower(t), Lower(k), i);
      assert OccursAt(Lower(text), Lower(k), 0);
    } else {
      assert t in parts;
      var n :| 0 <= n < |parts| && parts[n] == t;
      JoinContainsPart(parts, "\n\n", n);
      ContainsLower(text, t);
      ContainsTransitive(Lower(text), Lower(t), Lower(k));
    }
  }

  // ---------------------------------------------------------------------------
  // The popup's keyword editor
  // ---------------------------------------------------------------------------

  /** A keyword as the editor saves it: non-empty, trimmed, comma-free. */
  predicate SavedKeyword(k: string) {
    |k| > 0 && Trimmed(k) && ',' !in k
  }

  /** The editor's save: split the input on commas, trim every piece and drop
      the empty ones. */
  function ParseKeywords(raw: string): (ks: seq<string>)
    ensures forall k :: k in ks ==> SavedKeyword(k)
  {
    var pieces := Split(raw, ',');
    SplitPiecesFree(raw, ',');
    TrimmedPiecesFree(pieces, ',');
    TrimmedPieces(pieces)
  }

  /** Trimmed pieces of pieces free of `c` are free of `c`. */
  lemma {:induction false} TrimmedPiecesFree(pieces: seq<string>, c: char)
    requires forall p :: p in pieces ==> c !in p
    ensures forall k :: k in TrimmedPieces(pieces) ==> c !in k
  {
    if |pieces| > 0 {
      assert pieces[0] in pieces;
      TrimKeepsOut(pieces[0], c);
      assert forall p :: p in pieces[1..] ==> p in pieces;
      TrimmedPiecesFree(pieces[1..], c);
    }
  }

  /** The editor keeps the user's order: text before a comma yields its
      keywords before those of the text after it. */
  lemma ParseKeywordsConcat(a: string, b: string)
    ensures ParseKeywords(a + "," + b) == ParseKeywords(a) + ParseKeywords(b)
  {
    SplitConcat(a, b, ',');
    TrimmedPiecesConcat(Split(a, ','), Split(b, ','));
  }

  /** Text without a comma is one piece: it parses as its trimmed self, or
      as nothing when it is blank. Together with `ParseKeywordsConcat` this
      fixes the keywords of every text. */
  lemma ParsePiece(s: string)
    requires ',' !in s
    ensures ParseKeywords(s) == if Trim(s) == "" then [] else [Trim(s)]
  {
    SplitNoSep(s, ',');
    assert [s][1..] == [];
  }

  /** The text the editor is prefilled with: the stored list joined by ", ". */
  function Prefill(stored: Option<seq<string>>): string {
    Join(stored.GetOr([]), ", ")
  }

  lemma ParseIgnoresLeadingSpace(s: string)
    ensures ParseKeywords([' '] + s) == ParseKeywords(s)
  {
    var p := Split(s, ',');
    SplitLeadingSpace(s, ',');
    TrimLeadingSpace(p[0]);
    assert Split([' '] + s, ',') == [[' '] + p[0]] + p[1..];
    TrimmedPiecesConcat([[' '] + p[0]], p[1..]);
    TrimmedPiecesConcat([p[0]], p[1..]);
    assert [p[0]] + p[1..] == p;
  }

  lemma ParseSingle(k: string)
    requires SavedKeyword(k)
    ensures ParseKeywords(k) == [k]
  {
    SplitNoSep(k, ',');
    TrimOfTrimmed(k);
  }

  /** One saved keyword, ", " and more text parse as that keyword followed by
      the keywords of the text. */
  lemma ParseJoinCons(k: string, rest: string)
    requires SavedKeyword(k)
    ensures ParseKeywords(k + ", " + rest) == [k] + ParseKeywords(rest)
  {
    assert k + ", " + rest == k + "," + ([' '] + rest);
    ParseKeywordsConcat(k, [' '] + rest);
    ParseIgnoresLeadingSpace(rest);
    ParseSingle(k);
  }

  /** Saving the prefilled text unchanged gives back the stored list, for
      every list the editor can have saved. */
  lemma {:induction false} ParsePrefill(ks: seq<string>)
    requires forall k :: k in ks ==> SavedKeyword(k)
    ensures ParseKeywords(Prefill(Some(ks))) == ks
  {
    if |ks| == 0 {
      assert Split("", ',') == [""];
    } else if |ks| == 1 {
      assert ks[0] in ks;
      ParseSingle(ks[0]);
    } else {
      var k, rest := ks[0], ks[1..];
      assert k in ks;
      assert forall r :: r in rest ==> r in ks;
      calc {
        ParseKeywords(Prefill(Some(ks)));
        { assert Prefill(Some(ks)) == k + ", " + Prefill(Some(rest)); }
        ParseKeywords(k + ", " + Prefill(Some(rest)));
        { ParseJoinCons(k, Prefill(Some(rest))); }
        [k] + ParseKeywords(Prefill(Some(rest)));
        { ParsePrefill(rest); }
        [k] + rest;
      }
    }
  }

  /** Opening the editor and saving without edits changes nothing:
      parse(join(parse(raw), ", ")) == parse(raw). */
  lemma EditorRoundTrip(raw: string)
    ensures ParseKeywords(Prefill(Some(ParseKeywords(raw)))) == ParseKeywords(raw)
  {
    ParsePrefill(ParseKeywords(raw));
  }
}
