/**
 The pure parts of room creation: the eight-character room code, the slug
 made from the room name, the slug suffix taken from the room id, and the
 order in which `createRoom` checks its input. The random sources become
 inputs: the eight alphabet positions the code draws, and the UUID of the
 room.
 */
module RoomsController {
  import opened Base
  import opened JsText
  import opened Schema

  // ---- Room code ----

  const RoomCodeAlphabet: string := "ABCDEFGHIJKLMNOPQRSTUVWXYZ0123456789"
  const RoomCodeLength: int := 8

  /** The alphabet position `k` by arithmetic: 26 capital letters, then 10 digits. */
  function CodeChar(k: int): char
    requires 0 <= k < 36
  {
    if k < 26 then ('A' as int + k) as char else ('0' as int + (k - 26)) as char
  }

  /** The inverse of `CodeChar` on capital letters and digits. */
  function CodePosition(c: char): int {
    if 'A' <= c <= 'Z' then c as int - 'A' as int else c as int - '0' as int + 26
  }

  lemma AlphabetByArithmetic()
    ensures |RoomCodeAlphabet| == 36
    ensures forall k | 0 <= k < 36 :: RoomCodeAlphabet[k] == CodeChar(k)
  {
    assert RoomCodeAlphabet == seq(36, k requires 0 <= k < 36 => CodeChar(k));
  }

  /** Eight positions in the alphabet, as `Math.floor(Math.random() * 36)` yields them. */
  predicate ValidDraws(draws: seq<int>) {
    |draws| == RoomCodeLength && forall i | 0 <= i < |draws| :: 0 <= draws[i] < |RoomCodeAlphabet|
  }

  /** `generateRoomCode`, with its random draws as input. */
  function RoomCode(draws: seq<int>): (code: string)
    requires ValidDraws(draws)
    ensures |code| == RoomCodeLength
    ensures forall i | 0 <= i < |code| :: 'A' <= code[i] <= 'Z' || '0' <= code[i] <= '9'
  {
    AlphabetByArithmetic();
    seq(|draws|, i requires 0 <= i < |draws| => RoomCodeAlphabet[draws[i]])
  }

  /** Distinct draws give distinct characters: the code determines the draws. */
  lemma RoomCodeDeterminesDraws(draws: seq<int>)
    requires ValidDraws(draws)
    ensures forall i | 0 <= i < RoomCodeLength :: CodePosition(RoomCode(draws)[i]) == draws[i]
  {
    AlphabetByArithmetic();
  }

  // ---- Slug ----

  /** The class `\w`: ASCII letters, digits and underscore. */
  predicate IsWordChar(c: char) {
    'a' <= c <= 'z' || 'A' <= c <= 'Z' || '0' <= c <= '9' || c == '_'
  }

  /** The characters a slug is made of: `[a-z0-9_-]`. */
  predicate SlugChar(c: char) {
    'a' <= c <= 'z' || '0' <= c <= '9' || c == '_' || c == '-'
  }

  /** The word characters of `s`, in order. */
  function Words(s: string): string {
    Filter(s, IsWordChar)
  }

  function LowerAscii(c: char): char {
    if 'A' <= c <= 'Z' then (c as int + 32) as char else c
  }

  /** `toLowerCase`, for the ASCII letters. */
  function ToLower(s: string): (r: string)
    ensures |r| == |s|
    ensures forall i | 0 <= i < |r| :: !('A' <= r[i] <= 'Z')
    ensures forall i | 0 <= i < |s| :: 'A' <= s[i] <= 'Z' ==> r[i] as int == s[i] as int + 32
    ensures forall i | 0 <= i < |s| :: !('A' <= s[i] <= 'Z') ==> r[i] == s[i]
  {
    seq(|s|, i requires 0 <= i < |s| => LowerAscii(s[i]))
  }

  /** Drops leading white space. */
  function TrimStart(s: string): (r: string)
    ensures |r| <= |s| && r == s[|s| - |r|..]
    ensures forall i | 0 <= i < |s| - |r| :: IsSpace(s[i])
    ensures |r| > 0 ==> !IsSpace(r[0])
  {
    if |s| > 0 && IsSpace(s[0]) then TrimStart(s[1..]) else s
  }

  /** Drops trailing white space. */
  function TrimEnd(s: string): (r: string)
    ensures |r| <= |s| && r == s[..|r|]
    ensures forall i | |r| <= i < |s| :: IsSpace(s[i])
    ensures |r| > 0 ==> !IsSpace(r[|r| - 1])
  {
    if |s| > 0 && IsSpace(s[|s| - 1]) then TrimEnd(s[..|s| - 1]) else s
  }

  /** `trim`: the text between the leading and the trailing white space. */
  function Trim(s: string): (r: string)
    ensures exists a, b | 0 <= a <= b <= |s| :: r == s[a..b]
                && (forall i | 0 <= i < a :: IsSpace(s[i]))
                && (forall i | b <= i < |s| :: IsSpace(s[i]))
    ensures |r| > 0 ==> !IsSpace(r[0]) && !IsSpace(r[|r| - 1])
  {
    var t := TrimStart(s);
    var r := TrimEnd(t);
    var a := |s| - |t|;
    assert r == s[a..a + |r|];
    r
  }

  /** Every character of `r` occurs in `s`. */
  predicate CharsFrom(r: string, s: string) {
    forall i | 0 <= i < |r| :: r[i] in s
  }

  /** What `.replace(/[^\w\s-]/g, '')` keeps. */
  predicate KeptBySymbolStrip(c: char) {
    IsWordChar(c) || IsSpace(c) || c == '-'
  }

  function StripSymbols(s: string): (r: string)
    ensures |r| <= |s|
    ensures forall i | 0 <= i < |r| :: KeptBySymbolStrip(r[i])
  {
    Filter(s, KeptBySymbolStrip)
  }

  /** The symbol strip works character by character: it distributes over
      concatenation. */
  lemma StripSymbolsAppend(a: string, b: string)
    ensures StripSymbols(a + b) == StripSymbols(a) + StripSymbols(b)
  {
    FilterAppend(a, b, KeptBySymbolStrip);
  }

  /** A single character survives the symbol strip exactly when it is a word
      character, white space or '-'. */
  lemma StripSymbolsOne(c: char)
    ensures StripSymbols([c]) == if KeptBySymbolStrip(c) then [c] else []
  {
    assert [c][1..] == [];
  }

  /** Removing characters that are not word characters keeps the words. */
  lemma {:induction false} WordsIgnoreNonWords(a: string, b: string)
    requires forall i | 0 <= i < |a| :: !IsWordChar(a[i])
    ensures Words(a + b) == Words(b)
  {
    FilterAppend(a, b, IsWordChar);
    FilterDropsAll(a, IsWordChar);
    assert [] + Words(b) == Words(b);
  }

  lemma SpaceIsNotWord(c: char)
    requires IsSpace(c)
    ensures !IsWordChar(c) && c != '-'
  {
  }

  /** Words before and after `trim`. */
  lemma TrimKeepsWords(s: string)
    ensures Words(Trim(s)) == Words(s)
  {
    TrimStartKeepsWords(s);
    TrimEndKeepsWords(TrimStart(s));
  }

  lemma TrimStartKeepsWords(s: string)
    ensures Words(TrimStart(s)) == Words(s)
  {
    var t := TrimStart(s);
    var n := |s| - |t|;
    var gap := s[..n];
    TakeDrop(s, n);
    forall i | 0 <= i < |gap|
      ensures !IsWordChar(gap[i])
    {
      SpaceIsNotWord(s[i]);
    }
    WordsIgnoreNonWords(gap, t);
  }

  lemma TrimEndKeepsWords(s: string)
    ensures Words(TrimEnd(s)) == Words(s)
  {
    var t := TrimEnd(s);
    var tail := s[|t|..];
    assert s == t + tail;
    forall i | 0 <= i < |tail|
      ensures !IsWordChar(tail[i])
    {
      SpaceIsNotWord(s[|t| + i]);
    }
    FilterAppend(t, tail, IsWordChar);
    FilterDropsAll(tail, IsWordChar);
    assert Words(t) + [] == Words(t);
  }

  lemma TrimChars(s: string)
    ensures CharsFrom(Trim(s), s)
  {
    var a, b :| 0 <= a <= b <= |s| && Trim(s) == s[a..b];
    forall i | 0 <= i < b - a
      ensures s[a..b][i] in s
    {
      assert s[a..b][i] == s[a + i];
    }
  }

  /** Words before and after the symbol strip. */
  lemma {:induction false} StripSymbolsKeepsWords(s: string)
    ensures Words(StripSymbols(s)) == Words(s)
  {
    if |s| > 0 {
      StripSymbolsKeepsWords(s[1..]);
      if KeptBySymbolStrip(s[0]) {
        assert ([s[0]] + StripSymbols(s[1..]))[1..] == StripSymbols(s[1..]);
      } else {
        assert [] + StripSymbols(s[1..]) == StripSymbols(s[1..]);
      }
    }
  }

  /** `.replace(/\s+/g, '-')`: every run of white space becomes one '-'. */
  function DashForSpaces(s: string): (r: string)
    ensures NoSpace(r)
    decreases |s|
  {
    if |s| == 0 then []
    else if IsSpace(s[0]) then
      var rest := DashForSpaces(TrimStart(s));
      ['-'] + rest
    else
      var rest := DashForSpaces(s[1..]);
      [s[0]] + rest
  }

  /** Every character of the result is a hyphen or comes from the input. */
  lemma {:induction false} DashForSpacesChars(s: string)
    ensures forall i | 0 <= i < |DashForSpaces(s)| :: DashForSpaces(s)[i] == '-' || DashForSpaces(s)[i] in s
    decreases |s|
  {
    if |s| > 0 {
      var t := if IsSpace(s[0]) then TrimStart(s) else s[1..];
      DashForSpacesChars(t);
      assert forall c | c in t :: c in s;
    }
  }

  /** No two adjacent hyphens. */
  predicate NoDoubleDash(s: string) {
    forall i | 0 <= i < |s| - 1 :: !(s[i] == '-' && s[i + 1] == '-')
  }

  /** Drops leading hyphens. */
  function DropDashes(s: string): (r: string)
    ensures |r| <= |s| && r == s[|s| - |r|..]
    ensures forall i | 0 <= i < |s| - |r| :: s[i] == '-'
    ensures |r| > 0 ==> r[0] != '-'
  {
    if |s| > 0 && s[0] == '-' then DropDashes(s[1..]) else s
  }

  /** `.replace(/-+/g, '-')`: every run of hyphens becomes one. */
  function SqueezeDashes(s: string): (r: string)
    ensures NoDoubleDash(r)
    ensures |s| > 0 ==> |r| > 0 && r[0] == s[0]
    decreases |s|
  {
    if |s| == 0 then []
    else if s[0] == '-' then
      ['-'] + SqueezeDashes(DropDashes(s))
    else
      [s[0]] + SqueezeDashes(s[1..])
  }

  /** Every character of the squeezed text comes from the input. */
  lemma {:induction false} SqueezeDashesChars(s: string)
    ensures CharsFrom(SqueezeDashes(s), s)
    decreases |s|
  {
    if |s| > 0 {
      var t := if s[0] == '-' then DropDashes(s) else s[1..];
      SqueezeDashesChars(t);
      var rest := SqueezeDashes(t);
      assert SqueezeDashes(s) == [s[0]] + rest;
      assert forall c | c in t :: c in s;
    }
  }

  lemma NoDoubleDashTail(s: string)
    requires |s| > 0 && NoDoubleDash(s)
    ensures NoDoubleDash(s[1..])
  {
    forall i | 0 <= i < |s[1..]| - 1
      ensures !(s[1..][i] == '-' && s[1..][i + 1] == '-')
    {
      assert s[1..][i] == s[i + 1] && s[1..][i + 1] == s[i + 2];
    }
  }

  /** Text without a double hyphen is left as it is. */
  lemma {:induction false} SqueezeDashesOnSqueezed(s: string)
    requires NoDoubleDash(s)
    ensures SqueezeDashes(s) == s
    decreases |s|
  {
    if |s| > 0 {
      NoDoubleDashTail(s);
      SqueezeDashesOnSqueezed(s[1..]);
      if s[0] == '-' && |s| > 1 {
        assert DropDashes(s[1..]) == s[1..];
      }
      assert s == [s[0]] + s[1..];
    }
  }

  /** Collapsing white space keeps the words. */
  lemma {:induction false} DashForSpacesKeepsWords(s: string)
    ensures Words(DashForSpaces(s)) == Words(s)
    decreases |s|
  {
    if |s| > 0 {
      if IsSpace(s[0]) {
        var t := TrimStart(s);
        var gap := s[..|s| - |t|];
        DashForSpacesKeepsWords(t);
        assert s == gap + t;
        assert DashForSpaces(s) == ['-'] + DashForSpaces(t);
        LeadingSpacesAreNotWords(s, |s| - |t|);
        WordsIgnoreNonWords(gap, t);
        WordsIgnoreNonWords(['-'], DashForSpaces(t));
      } else {
        var rest := DashForSpaces(s[1..]);
        DashForSpacesKeepsWords(s[1..]);
        assert s == [s[0]] + s[1..];
        assert DashForSpaces(s) == [s[0]] + rest;
        FilterAppend([s[0]], s[1..], IsWordChar);
        FilterAppend([s[0]], rest, IsWordChar);
      }
    }
  }

  /** A prefix of white space holds no word character. */
  lemma LeadingSpacesAreNotWords(s: string, n: int)
    requires 0 <= n <= |s|
    requires forall i | 0 <= i < n :: IsSpace(s[i])
    ensures forall i | 0 <= i < n :: !IsWordChar(s[..n][i])
  {
    forall i | 0 <= i < n
      ensures !IsWordChar(s[..n][i])
    {
      SpaceIsNotWord(s[i]);
    }
  }

  /** Collapsing hyphens keeps the words. */
  lemma {:induction false} SqueezeDashesKeepsWords(s: string)
    ensures Words(SqueezeDashes(s)) == Words(s)
    decreases |s|
  {
    if |s| > 0 {
      if s[0] == '-' {
        var t := DropDashes(s);
        SqueezeDashesKeepsWords(t);
        assert s == s[..|s| - |t|] + t;
        WordsIgnoreNonWords(s[..|s| - |t|], t);
        WordsIgnoreNonWords(['-'], SqueezeDashes(t));
      } else {
        SqueezeDashesKeepsWords(s[1..]);
        assert s == [s[0]] + s[1..];
        FilterAppend([s[0]], s[1..], IsWordChar);
        FilterAppend([s[0]], SqueezeDashes(s[1..]), IsWordChar);
      }
    }
  }

  // ---- Where the hyphens go: each run becomes exactly one '-' ----

  /** A run of white space in front of text that does not start with white
      space is exactly what `TrimStart` removes. */
  lemma {:induction false} TrimStartOfRun(w: string, y: string)
    requires forall i | 0 <= i < |w| :: IsSpace(w[i])
    requires |y| > 0 ==> !IsSpace(y[0])
    ensures TrimStart(w + y) == y
    decreases |w|
  {
    if |w| == 0 {
      assert w + y == y;
    } else {
      assert (w + y)[1..] == w[1..] + y;
      TrimStartOfRun(w[1..], y);
    }
  }

  /** Text that ends in a non-space character shields what follows it from `TrimStart`. */
  lemma {:induction false} TrimStartAppend(x: string, z: string)
    requires |x| > 0 && !IsSpace(x[|x| - 1])
    ensures TrimStart(x + z) == TrimStart(x) + z
    decreases |x|
  {
    if IsSpace(x[0]) {
      assert (x + z)[1..] == x[1..] + z;
      TrimStartAppend(x[1..], z);
    }
  }

  /** Text that ends in a non-space character is rewritten independently of what follows. */
  lemma {:induction false} DashForSpacesAppend(x: string, z: string)
    requires |x| > 0 ==> !IsSpace(x[|x| - 1])
    ensures DashForSpaces(x + z) == DashForSpaces(x) + DashForSpaces(z)
    decreases |x|
  {
    if |x| == 0 {
      assert x + z == z;
    } else if IsSpace(x[0]) {
      var t := TrimStart(x);
      TrimStartAppend(x, z);
      DashForSpacesAppend(t, z);
      var d := DashForSpaces(t);
      assert DashForSpaces(x + z) == ['-'] + (d + DashForSpaces(z));
      AppendAssoc(['-'], d, DashForSpaces(z));
    } else {
      var rest := x[1..];
      assert (x + z)[1..] == rest + z;
      DashForSpacesAppend(rest, z);
      var d := DashForSpaces(rest);
      assert DashForSpaces(x + z) == [x[0]] + (d + DashForSpaces(z));
      AppendAssoc([x[0]], d, DashForSpaces(z));
    }
  }

  /** A leading run of white space becomes one '-'. */
  lemma DashForSpacesLeadingRun(w: string, y: string)
    requires |w| > 0 && forall i | 0 <= i < |w| :: IsSpace(w[i])
    requires |y| > 0 ==> !IsSpace(y[0])
    ensures DashForSpaces(w + y) == "-" + DashForSpaces(y)
  {
    TrimStartOfRun(w, y);
    assert (w + y)[0] == w[0];
  }

  /** A run of white space between text that does not touch it becomes exactly one '-'. */
  lemma DashForSpacesRun(x: string, w: string, y: string)
    requires |w| > 0 && forall i | 0 <= i < |w| :: IsSpace(w[i])
    requires |x| > 0 ==> !IsSpace(x[|x| - 1])
    requires |y| > 0 ==> !IsSpace(y[0])
    ensures DashForSpaces(x + w + y) == DashForSpaces(x) + "-" + DashForSpaces(y)
  {
    AppendAssoc(x, w, y);
    DashForSpacesAppend(x, w + y);
    DashForSpacesLeadingRun(w, y);
    AppendAssoc(DashForSpaces(x), "-", DashForSpaces(y));
  }

  /** A run of hyphens in front of text that does not start with one is
      exactly what `DropDashes` removes. */
  lemma {:induction false} DropDashesOfRun(w: string, y: string)
    requires forall i | 0 <= i < |w| :: w[i] == '-'
    requires |y| > 0 ==> y[0] != '-'
    ensures DropDashes(w + y) == y
    decreases |w|
  {
    if |w| == 0 {
      assert w + y == y;
    } else {
      assert (w + y)[1..] == w[1..] + y;
      DropDashesOfRun(w[1..], y);
    }
  }

  /** Text that ends in a character other than '-' shields what follows it from `DropDashes`. */
  lemma {:induction false} DropDashesAppend(x: string, z: string)
    requires |x| > 0 && x[|x| - 1] != '-'
    ensures DropDashes(x + z) == DropDashes(x) + z
    decreases |x|
  {
    if x[0] == '-' {
      assert (x + z)[1..] == x[1..] + z;
      DropDashesAppend(x[1..], z);
    }
  }

  /** Text that ends in a character other than '-' is squeezed independently of what follows. */
  lemma {:induction false} SqueezeDashesAppend(x: string, z: string)
    requires |x| > 0 ==> x[|x| - 1] != '-'
    ensures SqueezeDashes(x + z) == SqueezeDashes(x) + SqueezeDashes(z)
    decreases |x|
  {
    if |x| == 0 {
      assert x + z == z;
    } else if x[0] == '-' {
      var t := DropDashes(x);
      DropDashesAppend(x, z);
      SqueezeDashesAppend(t, z);
      var d := SqueezeDashes(t);
      assert SqueezeDashes(x + z) == ['-'] + (d + SqueezeDashes(z));
      AppendAssoc(['-'], d, SqueezeDashes(z));
    } else {
      var rest := x[1..];
      assert (x + z)[1..] == rest + z;
      SqueezeDashesAppend(rest, z);
      var d := SqueezeDashes(rest);
      assert SqueezeDashes(x + z) == [x[0]] + (d + SqueezeDashes(z));
      AppendAssoc([x[0]], d, SqueezeDashes(z));
    }
  }

  /** A leading run of hyphens becomes one '-'. */
  lemma SqueezeDashesLeadingRun(w: string, y: string)
    requires |w| > 0 && forall i | 0 <= i < |w| :: w[i] == '-'
    requires |y| > 0 ==> y[0] != '-'
    ensures SqueezeDashes(w + y) == "-" + SqueezeDashes(y)
  {
    DropDashesOfRun(w, y);
    assert (w + y)[0] == w[0];
  }

  /** A run of hyphens between text that does not touch it becomes exactly one '-'. */
  lemma SqueezeDashesRun(x: string, w: string, y: string)
    requires |w| > 0 && forall i | 0 <= i < |w| :: w[i] == '-'
    requires |x| > 0 ==> x[|x| - 1] != '-'
    requires |y| > 0 ==> y[0] != '-'
    ensures SqueezeDashes(x + w + y) == SqueezeDashes(x) + "-" + SqueezeDashes(y)
  {
    AppendAssoc(x, w, y);
    SqueezeDashesAppend(x, w + y);
    SqueezeDashesLeadingRun(w, y);
    AppendAssoc(SqueezeDashes(x), "-", SqueezeDashes(y));
  }

  /** The characters that survive each stage of the slug pipeline. */
  lemma PipelineChars(lower: string, trimmed: string)
    requires forall i | 0 <= i < |lower| :: !('A' <= lower[i] <= 'Z')
    requires CharsFrom(trimmed, lower)
    ensures var slug := SqueezeDashes(DashForSpaces(StripSymbols(trimmed)));
            (forall i | 0 <= i < |slug| :: SlugChar(slug[i])) && NoSpace(slug)
  {
    var kept := StripSymbols(trimmed);
    var dashed := DashForSpaces(kept);
    var slug := SqueezeDashes(dashed);
    SqueezeDashesChars(dashed);
    DashForSpacesChars(kept);
    forall i | 0 <= i < |slug|
      ensures SlugChar(slug[i]) && !IsSpace(slug[i])
    {
      var c := slug[i];
      var j :| 0 <= j < |dashed| && dashed[j] == c;
      assert !IsSpace(c);
      if c != '-' {
        var k :| 0 <= k < |kept| && kept[k] == c;
        assert KeptBySymbolStrip(c) && c in trimmed;
        var m :| 0 <= m < |trimmed| && trimmed[m] == c;
        var n :| 0 <= n < |lower| && lower[n] == c;
        assert IsWordChar(c);
      }
    }
  }

  /** The characters of the whole pipeline's output. */
  lemma SlugPipelineChars(name: string)
    ensures var slug := SqueezeDashes(DashForSpaces(StripSymbols(Trim(ToLower(name)))));
            (forall i | 0 <= i < |slug| :: SlugChar(slug[i])) && NoSpace(slug)
  {
    var lower := ToLower(name);
    var trimmed := Trim(lower);
    ToLowerHasNoCapitals(name);
    TrimChars(lower);
    PipelineChars(lower, trimmed);
  }

  lemma ToLowerHasNoCapitals(s: string)
    ensures forall i | 0 <= i < |ToLower(s)| :: !('A' <= ToLower(s)[i] <= 'Z')
  {
  }

  /** `generateSlug`: lower-case, trim, drop symbols, then collapse white-space
      runs and hyphen runs to single hyphens. */
  function GenerateSlug(name: string): (slug: string)
    ensures forall i | 0 <= i < |slug| :: SlugChar(slug[i])
    ensures NoSpace(slug)
    ensures NoDoubleDash(slug)
  {
    SlugPipelineChars(name);
    SqueezeDashes(DashForSpaces(StripSymbols(Trim(ToLower(name)))))
  }

  /** The slug keeps exactly the word characters of the lower-cased name, in
      order: only separators and symbols are dropped or rewritten. */
  lemma GenerateSlugKeepsWords(name: string)
    ensures Words(GenerateSlug(name)) == Words(ToLower(name))
  {
    var lower := ToLower(name);
    var trimmed := Trim(lower);
    var kept := StripSymbols(trimmed);
    var dashed := DashForSpaces(kept);
    TrimKeepsWords(lower);
    StripSymbolsKeepsWords(trimmed);
    DashForSpacesKeepsWords(kept);
    SqueezeDashesKeepsWords(dashed);
  }

  /** Lower-casing text without capital letters changes nothing. */
  lemma ToLowerOnLower(s: string)
    requires forall i | 0 <= i < |s| :: !('A' <= s[i] <= 'Z')
    ensures ToLower(s) == s
  {
  }

  /** Trimming text that neither starts nor ends with white space changes nothing. */
  lemma TrimOnTrimmed(s: string)
    requires |s| > 0 ==> !IsSpace(s[0]) && !IsSpace(s[|s| - 1])
    ensures Trim(s) == s
  {
    assert TrimStart(s) == s;
    assert TrimEnd(s) == s;
  }

  /** Slug characters are neither capitals nor symbols. */
  lemma SlugCharsFacts(s: string)
    requires forall i | 0 <= i < |s| :: SlugChar(s[i])
    ensures forall i | 0 <= i < |s| :: !('A' <= s[i] <= 'Z') && KeptBySymbolStrip(s[i])
  {
  }

  /** A slug is its own slug: every stage of the pipeline leaves it alone. */
  lemma GenerateSlugIdempotent(name: string)
    ensures GenerateSlug(GenerateSlug(name)) == GenerateSlug(name)
  {
    var s := GenerateSlug(name);
    SlugCharsFacts(s);
    ToLowerOnLower(s);
    assert |s| > 0 ==> !IsSpace(s[0]) && !IsSpace(s[|s| - 1]);
    TrimOnTrimmed(s);
    StripSymbolsOnKept(s);
    DashForSpacesPrefix(s, []);
    assert s + [] == s;
    SqueezeDashesOnSqueezed(s);
  }

  /** A non-empty run of lower-case word characters. */
  predicate LowerWord(w: string) {
    |w| > 0 && forall i | 0 <= i < |w| :: 'a' <= w[i] <= 'z' || '0' <= w[i] <= '9' || w[i] == '_'
  }

  /** White-space collapsing passes a space-free prefix through unchanged. */
  lemma {:induction false} DashForSpacesPrefix(x: string, y: string)
    requires NoSpace(x)
    ensures DashForSpaces(x + y) == x + DashForSpaces(y)
    decreases |x|
  {
    if |x| > 0 {
      var xy := x + y;
      assert xy[1..] == x[1..] + y && xy[0] == x[0];
      var d := DashForSpaces(y);
      assert [x[0]] + (x[1..] + d) == x + d by {
        AppendAssoc([x[0]], x[1..], d);
        assert [x[0]] + x[1..] == x;
      }
      assert NoSpace(x[1..]) && !IsSpace(xy[0]) by {
        assert forall i | 0 <= i < |x[1..]| :: x[1..][i] == x[i + 1];
      }
      DashForSpacesPrefix(x[1..], y);
      assert DashForSpaces(xy[1..]) == x[1..] + d;
      assert DashForSpaces(xy) == [x[0]] + DashForSpaces(xy[1..]);
    } else {
      assert x + y == y;
    }
  }

  /** What the pipeline's stages need to know about a lower-case word. */
  lemma LowerWordFacts(w: string)
    requires LowerWord(w)
    ensures NoSpace(w) && NoDoubleDash(w)
    ensures forall i | 0 <= i < |w| :: !('A' <= w[i] <= 'Z') && KeptBySymbolStrip(w[i])
    ensures !IsSpace(w[0]) && !IsSpace(w[|w| - 1])
  {
  }

  /** A space in front of a word becomes a hyphen. */
  lemma DashForLeadingSpace(w: string)
    requires LowerWord(w)
    ensures DashForSpaces(" " + w) == "-" + w
  {
    assert NoSpace(w) && !IsSpace(w[0]) by { LowerWordFacts(w); }
    assert (" " + w)[1..] == w;
    assert TrimStart(" " + w) == TrimStart(w);
    assert TrimStart(w) == w;
    DashForSpacesPrefix(w, []);
    assert w + [] == w;
  }

  /** The joined text, character by character. */
  lemma JoinedWords(a: string, sep: char, b: string)
    requires LowerWord(a) && LowerWord(b)
    requires sep == ' ' || sep == '-'
    ensures forall i | 0 <= i < |a + [sep] + b| ::
              !('A' <= (a + [sep] + b)[i] <= 'Z') && KeptBySymbolStrip((a + [sep] + b)[i])
    ensures NoDoubleDash(a + [sep] + b)
  {
    LowerWordFacts(a);
    LowerWordFacts(b);
    var r := a + [sep] + b;
    forall i | 0 <= i < |r|
      ensures !('A' <= r[i] <= 'Z') && KeptBySymbolStrip(r[i])
    {
      if i > |a| { assert r[i] == b[i - |a| - 1]; }
    }
    forall i | 0 <= i < |r| - 1
      ensures !(r[i] == '-' && r[i + 1] == '-')
    {
      if i < |a| { assert r[i] == a[i]; }
      else { assert r[i + 1] == b[i - |a|]; }
    }
  }

  /** The symbol strip keeps text made only of kept characters. */
  lemma StripSymbolsOnKept(s: string)
    requires forall i | 0 <= i < |s| :: KeptBySymbolStrip(s[i])
    ensures StripSymbols(s) == s
  {
    FilterKeepsAll(s, KeptBySymbolStrip);
  }

  /** Two lower-case words separated by a space become the words joined by a hyphen. */
  lemma SlugOfTwoLowerWords(a: string, b: string)
    requires LowerWord(a) && LowerWord(b)
    ensures GenerateSlug(a + " " + b) == a + "-" + b
  {
    TwoLowerWordsStages(a, b);
    TwoLowerWordsDashed(a, b);
    SqueezeDashesOnSqueezed(a + "-" + b);
  }

  /** Lower-casing, trimming and the symbol strip leave two lower-case words
      and a space alone. */
  lemma TwoLowerWordsStages(a: string, b: string)
    requires LowerWord(a) && LowerWord(b)
    ensures ToLower(a + " " + b) == a + " " + b
    ensures Trim(a + " " + b) == a + " " + b
    ensures StripSymbols(a + " " + b) == a + " " + b
  {
    var s := a + [' '] + b;
    assert !IsSpace(s[0]) && !IsSpace(s[|s| - 1]) by {
      LowerWordFacts(a);
      LowerWordFacts(b);
      assert s[0] == a[0] && s[|s| - 1] == b[|b| - 1];
    }
    JoinedWords(a, ' ', b);
    ToLowerOnLower(s);
    TrimOnTrimmed(s);
    StripSymbolsOnKept(s);
  }

  /** The space between two lower-case words becomes a single hyphen. */
  lemma TwoLowerWordsDashed(a: string, b: string)
    requires LowerWord(a) && LowerWord(b)
    ensures DashForSpaces(a + " " + b) == a + "-" + b
    ensures NoDoubleDash(a + "-" + b)
  {
    assert a + [' '] + b == a + ([' '] + b);
    assert a + ['-'] + b == a + (['-'] + b);
    assert NoSpace(a) by { LowerWordFacts(a); }
    JoinedWords(a, '-', b);
    DashForSpacesPrefix(a, [' '] + b);
    DashForLeadingSpace(b);
  }


  /** The stages a lower-case word followed by " !" goes through. */
  lemma WordAndSymbolStages(a: string)
    requires LowerWord(a)
    ensures ToLower(a + " !") == a + " !"
    ensures Trim(a + " !") == a + " !"
    ensures StripSymbols(a + " !") == a + " "
  {
    var s := a + " !";
    assert s[|a|] == ' ' && s[|a| + 1] == '!';
    LowerWordFacts(a);
    forall i | 0 <= i < |s|
      ensures !('A' <= s[i] <= 'Z')
    {
      if i < |a| { assert s[i] == a[i]; }
    }
    ToLowerOnLower(s);
    TrimOnTrimmed(s);
    FilterAppend(a, " !", KeptBySymbolStrip);
    StripSymbolsOnKept(a);
    assert StripSymbols(" !") == " " by {
      assert " !"[1..] == "!";
      assert "!"[1..] == "";
      assert Filter("!", KeptBySymbolStrip) == [];
    }
  }

  /** A lower-case word and a space: the space becomes a final hyphen. */
  lemma WordAndSpaceDashed(a: string)
    requires LowerWord(a)
    ensures DashForSpaces(a + " ") == a + "-"
  {
    assert NoSpace(a) by { LowerWordFacts(a); }
    DashForSpacesPrefix(a, " ");
    assert DashForSpaces(" ") == "-" by {
      assert TrimStart(" ") == "";
      assert DashForSpaces("") == "";
    }
  }

  /** A lower-case word followed by " !" keeps the space as a final hyphen. */
  lemma SlugOfLowerWordAndSymbol(a: string)
    requires LowerWord(a)
    ensures GenerateSlug(a + " !") == a + "-"
  {
    WordAndSymbolStages(a);
    WordAndSpaceDashed(a);
    var r := a + "-";
    forall i | 0 <= i < |r| - 1
      ensures !(r[i] == '-' && r[i + 1] == '-')
    {
      assert r[i] == a[i];
    }
    SqueezeDashesOnSqueezed(a + "-");
  }

  /** A non-empty run of word characters, in either case. */
  predicate Word(w: string) {
    |w| > 0 && forall i | 0 <= i < |w| :: IsWordChar(w[i])
  }

  lemma ToLowerWord(w: string)
    requires Word(w)
    ensures LowerWord(ToLower(w))
  {
  }

  /** Lower-casing works character by character, so it distributes over joins. */
  lemma ToLowerJoin(a: string, sep: string, b: string)
    ensures ToLower(a + sep + b) == ToLower(a) + ToLower(sep) + ToLower(b)
  {
  }

  /** The slug depends on the name only through its lower-cased form. */
  lemma GenerateSlugOfLowered(x: string)
    ensures GenerateSlug(ToLower(x)) == GenerateSlug(x)
  {
    ToLowerOnLower(ToLower(x));
  }

  /** Two words separated by a space become the two words, lower-cased,
      joined by a hyphen: "Hello World" gives "hello-world". */
  lemma SlugOfTwoWords(a: string, b: string)
    requires Word(a) && Word(b)
    ensures GenerateSlug(a + " " + b) == ToLower(a) + "-" + ToLower(b)
  {
    ToLowerWord(a);
    ToLowerWord(b);
    ToLowerJoin(a, " ", b);
    assert ToLower(" ") == " ";
    GenerateSlugOfLowered(a + " " + b);
    SlugOfTwoLowerWords(ToLower(a), ToLower(b));
  }

  /** Symbols are dropped after `trim`, so the space in front of a trailing
      symbol survives the trim and ends the slug as a hyphen: "a !" gives "a-". */
  lemma SlugKeepsTrailingDash(a: string)
    requires Word(a)
    ensures GenerateSlug(a + " !") == ToLower(a) + "-"
  {
    ToLowerWord(a);
    ToLowerJoin(a, " !", "");
    assert ToLower(" !") == " !";
    assert a + " !" + "" == a + " !";
    assert ToLower(a) + " !" + ToLower("") == ToLower(a) + " !";
    GenerateSlugOfLowered(a + " !");
    SlugOfLowerWordAndSymbol(ToLower(a));
  }

  /** "Hello World" gives "hello-world". */
  lemma HelloWorldExample()
    ensures GenerateSlug("Hello World") == "hello-world"
  {
    assert "Hello World" == "Hello" + " " + "World";
    assert Word("Hello") && Word("World");
    assert ToLower("Hello") + "-" + ToLower("World") == "hello-world" by {
      assert ToLower("Hello") == "hello" && ToLower("World") == "world";
    }
    SlugOfTwoWords("Hello", "World");
  }

  /** "a !" gives "a-". */
  lemma TrailingSymbolExample()
    ensures GenerateSlug("a !") == "a-"
  {
    assert "a !" == "a" + " !";
    assert Word("a");
    assert ToLower("a") + "-" == "a-" by { assert ToLower("a") == "a"; }
    SlugKeepsTrailingDash("a");
  }

  // ---- Room slug: name slug, '-', six characters of the room id ----

  predicate NotDash(c: char) {
    c != '-'
  }

  /** `id.replace(/-/g, '').substring(0, 6)`. */
  function UniqueId(uuid: string): (u: string)
    ensures '-' !in u
    ensures u <= Filter(uuid, NotDash)
    ensures |u| == (if |Filter(uuid, NotDash)| < 6 then |Filter(uuid, NotDash)| else 6)
  {
    var hex := Filter(uuid, NotDash);
    hex[..if |hex| < 6 then |hex| else 6]
  }

  function RoomSlug(name: string, uuid: string): string {
    GenerateSlug(name) + "-" + UniqueId(uuid)
  }

  /** Split at the last hyphen; the whole text and "" when there is none. */
  function SplitAtLastDash(s: string): (string, string) {
    var i := LastIndexOf(s, '-');
    if i < 0 then (s, "") else (s[..i], s[i + 1..])
  }

  /** The room slug can be taken apart again: its last hyphen is the one that
      joins the name slug and the id part. */
  lemma RoomSlugSplits(name: string, uuid: string)
    ensures SplitAtLastDash(RoomSlug(name, uuid)) == (GenerateSlug(name), UniqueId(uuid))
  {
    var a := GenerateSlug(name);
    var b := UniqueId(uuid);
    var s := a + "-" + b;
    var i := LastIndexOf(s, '-');
    assert s[|a|] == '-';
    assert s[|a| + 1..] == b;
    assert i == |a|;
    assert s[..|a|] == a;
    assert s[|a| + 1..] == b;
  }

  // ---- createRoom ----

  datatype Room = Room(
    id: string,
    userId: string,
    name: string,
    slug: string,
    code: string,
    isActive: bool,
    createdAt: int,
    updatedAt: int)

  /** Status, message and, on success, the room row to insert. */
  datatype RoomReply = RoomReply(status: int, message: Option<string>, room: Option<Room>)

  /** POST /rooms, after authentication: the name is checked before the user. */
  function CreateRoom(name: string, principal: Option<UserView>, uuid: string, draws: seq<int>, now: int): (r: RoomReply)
    requires ValidDraws(draws)
    ensures name == "" ==> r == RoomReply(400, Some("Bad Request"), None)
    ensures name != "" && (principal.None? || principal.value.id == "") ==> r == RoomReply(401, Some("Unauthorized"), None)
    ensures r.status == 200 <==> name != "" && principal.Some? && principal.value.id != ""
    ensures r.status == 200 ==>
              && r.message.None? && r.room.Some?
              && var room := r.room.value;
                 && room.id == uuid && room.userId == principal.value.id && room.name == name
                 && !room.isActive
                 && room.slug == RoomSlug(name, uuid)
                 && SplitAtLastDash(room.slug) == (GenerateSlug(name), UniqueId(uuid))
                 && room.code == RoomCode(draws)
                 && |room.code| == RoomCodeLength
                 && room.createdAt == now && room.updatedAt == now
  {
    if name == "" then RoomReply(400, Some("Bad Request"), None)
    else if principal.None? || principal.value.id == "" then RoomReply(401, Some("Unauthorized"), None)
    else
      RoomSlugSplits(name, uuid);
      var room := Room(uuid, principal.value.id, name, RoomSlug(name, uuid), RoomCode(draws), false, now, now);
      RoomReply(200, None, Some(room))
  }
}
