/** The path sanitiser `escapePath`: Unicode NFD decomposition, removal of
    the combining diacritical marks U+0300..U+036F, then replacement of every
    character outside [A-Za-z0-9-_./] by '-'. */
module PathSanitizer {

  predicate IsAsciiChar(c: char) { c as int < 128 }

  predicate IsAscii(s: string) { forall i :: 0 <= i < |s| ==> IsAsciiChar(s[i]) }

  /** The one property of NFD normalisation the model relies on: text made of
      ASCII characters only is already in normal form. */
  ghost predicate FixesAscii(f: string -> string) {
    forall s :: IsAscii(s) ==> f(s) == s
  }

  /** `String.prototype.normalize("NFD")`, left abstract: any string function
      that is the identity on ASCII text. */
  type Normalizer = f: string -> string | FixesAscii(f) witness (s: string) => s

  /** A character of the block "Combining Diacritical Marks". */
  predicate IsCombiningMark(c: char) { '\U{0300}' <= c <= '\U{036F}' }

  /** A character of the class [a-zA-Z0-9\-_.\/]. */
  predicate IsAllowed(c: char) {
    ('a' <= c <= 'z') || ('A' <= c <= 'Z') || ('0' <= c <= '9')
    || c == '-' || c == '_' || c == '.' || c == '/'
  }

  predicate AllAllowed(s: string) { forall i :: 0 <= i < |s| ==> IsAllowed(s[i]) }

  predicate NoMarks(s: string) { forall i :: 0 <= i < |s| ==> !IsCombiningMark(s[i]) }

  /** The second step: every combining diacritical mark is dropped. */
  function StripMarks(s: string): (r: string)
    ensures NoMarks(r)
    ensures |r| <= |s|
  {
    if s == [] then []
    else (if IsCombiningMark(s[0]) then [] else [s[0]]) + StripMarks(s[1..])
  }

  /** A character outside the Basic Multilingual Plane, which a JavaScript
      string holds as two UTF-16 code units (a surrogate pair). */
  predicate IsAstral(c: char) { c as int > 0xFFFF }

  predicate NoAstral(s: string) { forall i :: 0 <= i < |s| ==> !IsAstral(s[i]) }

  /** The length of `s` in UTF-16 code units, the units a regular expression
      without the `u` flag matches one by one. */
  function Utf16Length(s: string): (n: nat)
    ensures n >= |s|
    ensures n == |s| <==> NoAstral(s)
  {
    if s == [] then 0
    else (if IsAstral(s[0]) then 2 else 1) + Utf16Length(s[1..])
  }

  /** The third step on one character: an allowed character is kept, any
      other becomes one '-' per UTF-16 code unit, so two for a character
      outside the Basic Multilingual Plane. */
  function ReplaceChar(c: char): (r: string)
    ensures |r| == if IsAstral(c) && !IsAllowed(c) then 2 else 1
    ensures AllAllowed(r)
    ensures IsAllowed(c) <==> r == [c]
  {
    if IsAllowed(c) then [c] else if IsAstral(c) then "--" else "-"
  }

  /** The third step: every character is replaced as `ReplaceChar` says and
      the pieces are joined in order, so the result is as long as the input
      in UTF-16 code units; on text without characters outside the Basic
      Multilingual Plane each position keeps its character if it is allowed
      and holds one '-' otherwise. */
  function ReplaceDisallowed(s: string): (r: string)
    ensures |r| == Utf16Length(s)
    ensures AllAllowed(r)
    ensures NoAstral(s) ==> forall i :: 0 <= i < |s| ==> r[i] == if IsAllowed(s[i]) then s[i] else '-'
  {
    if s == [] then []
    else
      var r := ReplaceChar(s[0]) + ReplaceDisallowed(s[1..]);
      assert NoAstral(s) ==> NoAstral(s[1..]) by {
        if NoAstral(s) {
          forall i | 0 <= i < |s[1..]| ensures !IsAstral(s[1..][i]) {
            assert s[1..][i] == s[i + 1];
          }
        }
      }
      r
  }

  /** `escapePath(path)` for a given NFD normaliser. */
  function EscapePath(nfd: Normalizer, path: string): (r: string)
    ensures AllAllowed(r)
    ensures IsAscii(r)
  {
    ReplaceDisallowed(StripMarks(nfd(path)))
  }

  lemma AllowedIsAscii(s: string)
    requires AllAllowed(s)
    ensures IsAscii(s) && NoMarks(s)
  {
  }

  /** Removing marks distributes over concatenation. */
  lemma {:induction false} StripMarksAppend(a: string, b: string)
    ensures StripMarks(a + b) == StripMarks(a) + StripMarks(b)
  {
    if a == [] {
      assert a + b == b;
    } else {
      assert (a + b)[0] == a[0];
      assert (a + b)[1..] == a[1..] + b;
      StripMarksAppend(a[1..], b);
    }
  }

  /** On one character the step is a filter: a mark becomes nothing, any
      other character stays. With `StripMarksAppend` this fixes the result
      for every string: the characters that are not marks, in order. */
  lemma StripMarksChar(c: char)
    ensures StripMarks([c]) == if IsCombiningMark(c) then [] else [c]
  {
    assert [c][1..] == [];
  }

  /** Removing marks changes a string exactly when it holds a mark. */
  lemma {:induction false} StripMarksIdentity(s: string)
    ensures StripMarks(s) == s <==> NoMarks(s)
  {
    if s != [] {
      StripMarksIdentity(s[1..]);
      if IsCombiningMark(s[0]) {
        assert |StripMarks(s)| < |s|;
      }
    }
  }

  /** On one character the step is `ReplaceChar`; with `ReplaceAppend`
      this fixes the result for every string. */
  lemma ReplaceDisallowedChar(c: char)
    ensures ReplaceDisallowed([c]) == ReplaceChar(c)
  {
    assert [c][1..] == [];
  }

  /** A character outside the Basic Multilingual Plane is two code units, so
      it becomes "--": "a\U{1F600}b" is stored as "a--b". */
  lemma AstralExample()
    ensures FixesAscii(Latin1Nfd)
      && EscapePath(Latin1Nfd, "a\U{1F600}b") == "a--b"
  {
    Latin1NfdFixesAscii();
    AstralNfdStep();
    AstralStripStep();
    AstralReplaceStep();
  }

  lemma AstralNfdStep()
    ensures Latin1Nfd("a\U{1F600}b") == "a\U{1F600}b"
  {
    assert "a\U{1F600}b"[1..] == "\U{1F600}b";
    assert "\U{1F600}b"[1..] == "b";
  }

  lemma AstralStripStep()
    ensures StripMarks("a\U{1F600}b") == "a\U{1F600}b"
  {
    StripMarksIdentity("a\U{1F600}b");
  }

  lemma AstralReplaceStep()
    ensures ReplaceDisallowed("a\U{1F600}b") == "a--b"
  {
    assert "a\U{1F600}b" == "a" + "\U{1F600}" + "b";
    ReplaceAppend("a" + "\U{1F600}", "b");
    ReplaceAppend("a", "\U{1F600}");
    ReplaceDisallowedChar('a');
    ReplaceDisallowedChar('\U{1F600}');
    ReplaceDisallowedChar('b');
  }

  /** An allowed character is ASCII, so it is a single UTF-16 code unit. */
  lemma AllowedNoAstral(s: string)
    requires AllAllowed(s)
    ensures NoAstral(s)
  {
  }

  lemma AsciiNoAstral(s: string)
    requires IsAscii(s)
    ensures NoAstral(s)
  {
    forall i | 0 <= i < |s| ensures !IsAstral(s[i]) {
      assert IsAsciiChar(s[i]);
    }
  }

  /** The replacement step leaves a string alone exactly when every character
      is in the allowed class. */
  lemma ReplaceIdentity(s: string)
    ensures ReplaceDisallowed(s) == s <==> AllAllowed(s)
  {
    if ReplaceDisallowed(s) == s {
      assert NoAstral(s);
      forall i | 0 <= i < |s| ensures IsAllowed(s[i]) {
        assert ReplaceDisallowed(s)[i] == s[i];
      }
    }
    if AllAllowed(s) {
      AllowedNoAstral(s);
    }
  }

  /** On ASCII input only the replacement step acts: each disallowed
      character becomes exactly one '-', so the length is preserved. */
  lemma EscapeAscii(nfd: Normalizer, s: string)
    requires IsAscii(s)
    ensures EscapePath(nfd, s) == ReplaceDisallowed(s)
    ensures |EscapePath(nfd, s)| == |s|
  {
    assert nfd(s) == s;
    assert NoMarks(s);
    StripMarksIdentity(s);
    AsciiNoAstral(s);
  }

  /** `escapePath` leaves a string unchanged exactly when every character is
      already allowed; '/' in particular survives, so a segment that holds a
      '/' yields a key with an extra level. */
  lemma EscapeFixesAllowed(nfd: Normalizer, s: string)
    ensures EscapePath(nfd, s) == s <==> AllAllowed(s)
  {
    if AllAllowed(s) {
      AllowedIsAscii(s);
      EscapeAscii(nfd, s);
      ReplaceIdentity(s);
    }
  }

  /** `escapePath` is idempotent. */
  lemma EscapeIdempotent(nfd: Normalizer, s: string)
    ensures EscapePath(nfd, EscapePath(nfd, s)) == EscapePath(nfd, s)
  {
    EscapeFixesAllowed(nfd, EscapePath(nfd, s));
  }

  /** `escapePath` is not injective: names that differ only in disallowed
      characters share one key, so "a b.txt" and "a-b.txt" collide. */
  lemma EscapeMergesNames(nfd: Normalizer)
    ensures EscapePath(nfd, "a b.txt") == EscapePath(nfd, "a-b.txt") == "a-b.txt"
  {
    SpacedNameReplaced();
    EscapeAscii(nfd, "a b.txt");
    EscapeFixesAllowed(nfd, "a-b.txt");
  }

  lemma SpacedNameReplaced()
    ensures IsAscii("a b.txt") && AllAllowed("a-b.txt")
    ensures ReplaceDisallowed("a b.txt") == "a-b.txt"
  {
  }

  // A concrete NFD normaliser for a few precomposed Latin-1 letters, used to
  // show the effect of the first two steps on accented text.

  function Latin1Decompose(c: char): string {
    if c == '\U{00E9}' then "e\U{0301}"       // é
    else if c == '\U{00E8}' then "e\U{0300}"  // è
    else if c == '\U{00EA}' then "e\U{0302}"  // ê
    else if c == '\U{00E0}' then "a\U{0300}"  // à
    else if c == '\U{00E7}' then "c\U{0327}"  // ç
    else if c == '\U{00C9}' then "E\U{0301}"  // É
    else [c]
  }

  function Latin1Nfd(s: string): string {
    if s == [] then [] else Latin1Decompose(s[0]) + Latin1Nfd(s[1..])
  }

  lemma {:induction false} Latin1NfdAscii(s: string)
    requires IsAscii(s)
    ensures Latin1Nfd(s) == s
  {
    if s != [] {
      Latin1DecomposeAscii(s[0]);
      AsciiTail(s);
      Latin1NfdAscii(s[1..]);
      assert s == [s[0]] + s[1..];
    }
  }

  lemma Latin1DecomposeAscii(c: char)
    requires IsAsciiChar(c)
    ensures Latin1Decompose(c) == [c]
  {
  }

  lemma AsciiTail(s: string)
    requires s != [] && IsAscii(s)
    ensures IsAsciiChar(s[0]) && IsAscii(s[1..])
  {
    forall i | 0 <= i < |s[1..]| ensures IsAsciiChar(s[1..][i]) {
      assert s[1..][i] == s[i + 1];
    }
  }

  lemma Latin1NfdFixesAscii()
    ensures FixesAscii(Latin1Nfd)
  {
    forall s | IsAscii(s) ensures Latin1Nfd(s) == s {
      Latin1NfdAscii(s);
    }
  }

  /** Accented letters lose their accent and the space becomes '-':
      "déjà vu" is stored as "deja-vu". */
  lemma AccentedExample()
    ensures FixesAscii(Latin1Nfd)
      && EscapePath(Latin1Nfd, "d\U{00E9}j\U{00E0} vu") == "deja-vu"
  {
    Latin1NfdFixesAscii();
    AccentedSteps();
  }

  lemma AccentedSteps()
    ensures Latin1Nfd("d\U{00E9}j\U{00E0} vu") == "de\U{0301}ja\U{0300} vu"
    ensures StripMarks("de\U{0301}ja\U{0300} vu") == "deja vu"
    ensures ReplaceDisallowed("deja vu") == "deja-vu"
  {
    NfdStep();
    StripStep();
    ReplaceStep();
  }

  lemma NfdStep()
    ensures Latin1Nfd("d\U{00E9}j\U{00E0} vu") == "de\U{0301}ja\U{0300} vu"
  {
  }

  lemma StripStep()
    ensures StripMarks("de\U{0301}ja\U{0300} vu") == "deja vu"
  {
    StripPieces();
    StripMarksAppend("de\U{0301}", "ja\U{0300} vu");
  }

  lemma StripPieces()
    ensures "de\U{0301}" + "ja\U{0300} vu" == "de\U{0301}ja\U{0300} vu"
    ensures StripMarks("de\U{0301}") == "de"
    ensures StripMarks("ja\U{0300} vu") == "ja vu"
    ensures "de" + "ja vu" == "deja vu"
  {
  }

  lemma ReplaceStep()
    ensures ReplaceDisallowed("deja vu") == "deja-vu"
  {
  }

  lemma {:induction false} ReplaceAppend(a: string, b: string)
    ensures ReplaceDisallowed(a + b) == ReplaceDisallowed(a) + ReplaceDisallowed(b)
  {
    if a == [] {
      assert a + b == b;
    } else {
      assert (a + b)[0] == a[0];
      assert (a + b)[1..] == a[1..] + b;
      ReplaceAppend(a[1..], b);
    }
  }
}
