/**
 * The helpers of utils.py: duration rendering, filename sanitising, Markdown
 * escaping, platform and spam classification of URLs, the progress bar,
 * chat-id validation and the allow-list set logic.
 */
module Utils {
  import opened Wrappers
  import opened Text

  // ------------------------------------------------------------------
  // format_duration
  // ------------------------------------------------------------------

  /** `format_duration(seconds)`: "Ns", "Mm Ss" or "Hh Mm Ss". */
  function FormatDuration(seconds: int): string
  {
    if seconds < 60 then IntToString(seconds) + "s"
    else if seconds < 3600 then
      NatToString(seconds / 60) + "m " + NatToString(seconds % 60) + "s"
    else
      NatToString(seconds / 3600) + "h " + NatToString((seconds % 3600) / 60) + "m "
      + NatToString(seconds % 60) + "s"
  }

  /** Python's `s.split(c)` for a one-character separator. */
  function Split(s: string, c: char): (parts: seq<string>)
    ensures |parts| > 0
    decreases |s|
  {
    match FindFirst(s, [c])
    case None => [s]
    case Some(i) => [s[..i]] + Split(s[i + 1..], c)
  }

  /** One rendered field such as "12m": decimal digits followed by `unit`. */
  function ReadField(f: string, unit: char): Option<nat>
  {
    if |f| >= 2 && f[|f| - 1] == unit && AllDigits(f[..|f| - 1])
    then Some(DigitsValue(f[..|f| - 1])) else None
  }

  function ReadFields(parts: seq<string>, units: string): Option<seq<nat>>
    requires |parts| == |units|
  {
    if parts == [] then Some([])
    else
      match ReadField(parts[0], units[0])
      case None => None
      case Some(v) =>
        match ReadFields(parts[1..], units[1..])
        case None => None
        case Some(vs) => Some([v] + vs)
  }

  /** The numbers of a rendered duration, hours first: one, two or three fields. */
  function DurationFields(s: string): Option<seq<nat>>
  {
    var parts := Split(s, ' ');
    if |parts| <= 3 then ReadFields(parts, "hms"[3 - |parts|..]) else None
  }

  /** Reads fields as base-60 digits: h*3600 + m*60 + s. */
  function Sexagesimal(fields: seq<nat>): nat
  {
    if fields == [] then 0 else Sexagesimal(fields[..|fields| - 1]) * 60 + fields[|fields| - 1]
  }

  lemma SplitLast(a: string, c: char)
    requires !Contains(a, [c])
    ensures Split(a, c) == [a]
  {
  }

  lemma SplitFirst(a: string, c: char, b: string)
    requires !Contains(a, [c])
    ensures Split(a + [c] + b, c) == [a] + Split(b, c)
  {
    var s := a + [c] + b;
    assert OccursAt(s, [c], |a|);
    forall j: nat | j < |a| ensures !OccursAt(s, [c], j) {
      assert s[j..j + 1] == a[j..j + 1];
      assert !OccursAt(a, [c], j);
    }
    assert FindFirst(s, [c]) == Some(|a|);
    assert s[..|a|] == a;
    assert s[|a| + 1..] == b;
  }

  lemma ReadDigitsField(n: nat, unit: char)
    requires !IsDigit(unit)
    ensures ReadField(NatToString(n) + [unit], unit) == Some(n)
    ensures !Contains(NatToString(n) + [unit], " ") || unit == ' '
  {
    NatToStringRoundTrip(n);
    var f := NatToString(n) + [unit];
    assert f[..|f| - 1] == NatToString(n);
    if unit != ' ' {
      forall j: nat | j <= |f| ensures !OccursAt(f, " ", j) {
        if j + 1 <= |f| {
          assert f[j..j + 1][0] == f[j];
        }
      }
    }
  }

  lemma ReadFieldsPrepend(p: string, u: char, ps: seq<string>, us: string, v: nat, vs: seq<nat>)
    requires |ps| == |us| && ReadField(p, u) == Some(v) && ReadFields(ps, us) == Some(vs)
    ensures ReadFields([p] + ps, [u] + us) == Some([v] + vs)
  {
    assert ([p] + ps)[1..] == ps;
    assert ([u] + us)[1..] == us;
  }

  lemma ReadSecondsField(c: string, sec: nat)
    requires ReadField(c, 's') == Some(sec)
    ensures ReadFields([c], "s") == Some([sec])
  {
    var none: seq<nat> := [];
    ReadFieldsPrepend(c, 's', [], [], sec, none);
    assert [c] + [] == [c] && "s" == ['s'] + [] && [sec] + none == [sec];
  }

  lemma FieldsOfOne(x: nat)
    requires x < 60
    ensures DurationFields(FormatDuration(x)) == Some([x])
  {
    var a := NatToString(x) + "s";
    ReadDigitsField(x, 's');
    SplitLast(a, ' ');
    assert FormatDuration(x) == a;
    assert "hms"[2..] == "s";
    ReadSecondsField(a, x);
  }

  lemma TwoFieldText(m: nat, sec: nat)
    ensures DurationFields(NatToString(m) + "m " + NatToString(sec) + "s") == Some([m, sec])
  {
    var a, b := NatToString(m) + "m", NatToString(sec) + "s";
    ReadDigitsField(m, 'm');
    ReadDigitsField(sec, 's');
    assert NatToString(m) + "m " + NatToString(sec) + "s" == a + " " + b;
    SplitFirst(a, ' ', b);
    SplitLast(b, ' ');
    assert "hms"[1..] == "ms" == ['m'] + "s";
    ReadSecondsField(b, sec);
    ReadFieldsPrepend(a, 'm', [b], "s", m, [sec]);
    assert [a] + [b] == [a, b] && [m] + [sec] == [m, sec];
  }

  lemma ThreeFieldsRead(a: string, b: string, c: string, h: nat, m: nat, sec: nat)
    requires !Contains(a, " ") && !Contains(b, " ") && !Contains(c, " ")
    requires ReadField(a, 'h') == Some(h) && ReadField(b, 'm') == Some(m) && ReadField(c, 's') == Some(sec)
    ensures DurationFields(a + " " + b + " " + c) == Some([h, m, sec])
  {
    ThreeSplit(a, b, c);
    ThreeFieldsParse(a, b, c, h, m, sec);
    assert "hms"[3 - 3..] == "hms";
  }

  lemma ThreeSplit(a: string, b: string, c: string)
    requires !Contains(a, " ") && !Contains(b, " ") && !Contains(c, " ")
    ensures Split(a + " " + b + " " + c, ' ') == [a, b, c]
  {
    var text := a + " " + b + " " + c;
    assert text == a + [' '] + (b + [' '] + c);
    SplitFirst(a, ' ', b + " " + c);
    SplitFirst(b, ' ', c);
    SplitLast(c, ' ');
    assert [a] + ([b] + [c]) == [a, b, c];
  }

  lemma ThreeFieldsParse(a: string, b: string, c: string, h: nat, m: nat, sec: nat)
    requires ReadField(a, 'h') == Some(h) && ReadField(b, 'm') == Some(m) && ReadField(c, 's') == Some(sec)
    ensures ReadFields([a, b, c], "hms") == Some([h, m, sec])
  {
    assert "hms" == ['h'] + (['m'] + "s");
    ReadSecondsField(c, sec);
    ReadFieldsPrepend(b, 'm', [c], "s", m, [sec]);
    ReadFieldsPrepend(a, 'h', [b] + [c], ['m'] + "s", h, [m] + [sec]);
    assert [a] + ([b] + [c]) == [a, b, c] && [h] + ([m] + [sec]) == [h, m, sec];
  }

  lemma ThreeFieldText(h: nat, m: nat, sec: nat)
    ensures DurationFields(NatToString(h) + "h " + NatToString(m) + "m " + NatToString(sec) + "s")
         == Some([h, m, sec])
  {
    var a, b, c := NatToString(h) + "h", NatToString(m) + "m", NatToString(sec) + "s";
    ReadDigitsField(h, 'h');
    ReadDigitsField(m, 'm');
    ReadDigitsField(sec, 's');
    assert NatToString(h) + "h " + NatToString(m) + "m " + NatToString(sec) + "s" == a + " " + b + " " + c;
    ThreeFieldsRead(a, b, c, h, m, sec);
  }

  lemma SexagesimalThree(h: nat, m: nat, s: nat)
    ensures Sexagesimal([h]) == h
    ensures Sexagesimal([h, m]) == h * 60 + m
    ensures Sexagesimal([h, m, s]) == (h * 60 + m) * 60 + s
  {
    assert [h, m, s][..2] == [h, m];
    assert [h, m][..1] == [h];
    assert [h][..0] == [];
  }

  lemma DivModUnique(x: int, d: int, q: int, r: int)
    requires 0 < d && 0 <= r < d && x == q * d + r
    ensures x / d == q && x % d == r
  {
    var q', r' := x / d, x % d;
    assert x == q' * d + r' && 0 <= r' < d;
    assert (q - q') * d == r' - r;
    assert q == q' by {
      if q - q' >= 1 { MulMono(1, q - q', d); }
      if q' - q >= 1 { MulMono(1, q' - q, d); }
    }
  }

  lemma HoursMinutesSeconds(x: nat)
    ensures (x / 3600 * 60 + (x % 3600) / 60) * 60 + x % 60 == x
  {
    var h, r := x / 3600, x % 3600;
    var m, s := r / 60, r % 60;
    assert x == h * 3600 + r;
    assert r == m * 60 + s;
    assert x == (h * 60 + m) * 60 + s;
    DivModUnique(x, 60, h * 60 + m, s);
  }

  /**
   * For every non-negative duration the rendered text has one field below a
   * minute, two below an hour and three otherwise; every field after the first
   * is below 60, and the fields read as h*3600 + m*60 + s give back `seconds`.
   */
  lemma FormatDurationFields(seconds: nat)
    ensures DurationFields(FormatDuration(seconds)).Some?
    ensures var fs := DurationFields(FormatDuration(seconds)).value;
      && |fs| == (if seconds < 60 then 1 else if seconds < 3600 then 2 else 3)
      && (forall i :: 1 <= i < |fs| ==> fs[i] < 60)
      && (|fs| == 2 ==> fs[0] < 60)
      && Sexagesimal(fs) == seconds
  {
    if seconds < 60 {
      FieldsOfOne(seconds);
      SexagesimalThree(seconds, 0, 0);
    } else if seconds < 3600 {
      TwoFieldText(seconds / 60, seconds % 60);
      SexagesimalThree(seconds / 60, seconds % 60, 0);
    } else {
      ThreeFieldText(seconds / 3600, (seconds % 3600) / 60, seconds % 60);
      SexagesimalThree(seconds / 3600, (seconds % 3600) / 60, seconds % 60);
      HoursMinutesSeconds(seconds);
    }
  }

  // ------------------------------------------------------------------
  // sanitize_filename
  // ------------------------------------------------------------------

  const InvalidFilenameChars: string := "<>:\"/\\|?*"
  const MaxFilenameLength: nat := 255

  /** `s.replace(a, b)` for one-character `a` and `b`. */
  function ReplaceChar(s: string, a: char, b: char): string
  {
    seq(|s|, i requires 0 <= i < |s| => if s[i] == a then b else s[i])
  }

  function MaskChar(c: char, bad: string): char
  {
    if c in bad then '_' else c
  }

  /** `filename` with every character of `bad` turned into `_`. */
  function Masked(filename: string, bad: string): (r: string)
    ensures |r| == |filename|
  {
    seq(|filename|, i requires 0 <= i < |filename| => MaskChar(filename[i], bad))
  }

  /** Index of the last `c` in `s`, or -1 (Python's `rfind`). */
  function RFind(s: string, c: char): (r: int)
    ensures -1 <= r < |s|
    ensures r >= 0 ==> s[r] == c
    ensures forall j :: r < j < |s| ==> s[j] != c
  {
    if s == [] then -1
    else if s[|s| - 1] == c then |s| - 1
    else RFind(s[..|s| - 1], c)
  }

  /** No `/` follows index `j` of `s`: position `j` lies in the last path component. */
  predicate NoSlashAfter(s: string, j: nat)
  {
    forall m :: j < m < |s| ==> s[m] != '/'
  }

  /**
   * `os.path.splitext` (POSIX): the extension starts at the last dot of the
   * last component, provided some non-dot character of that component
   * precedes it.
   */
  function SplitExt(p: string): (r: (string, string))
    ensures r.0 + r.1 == p
    ensures r.1 == [] || r.1[0] == '.'
    ensures forall k :: 0 <= k < |r.1| ==> r.1[k] != '/'
    ensures forall k :: 1 <= k < |r.1| ==> r.1[k] != '.'
    ensures r.1 != [] ==> exists j :: 0 <= j < |r.0| && r.0[j] != '.' && r.0[j] != '/' && NoSlashAfter(r.0, j)
    ensures r.1 == [] ==>
              forall j, k :: 0 <= j < k < |p| && p[k] == '.' && p[j] != '/' && NoSlashAfter(p, j) ==> p[j] == '.'
  {
    var sepIndex := RFind(p, '/');
    var dotIndex := RFind(p, '.');
    if dotIndex > sepIndex && exists j :: sepIndex + 1 <= j < dotIndex && p[j] != '.'
    then (p[..dotIndex], p[dotIndex..])
    else (p, [])
  }

  /** Python's `s[:k]`, where a negative `k` counts from the end. */
  function SliceTo(s: string, k: int): (r: string)
    ensures StartsWith(s, r)
    ensures 0 <= k <= |s| ==> |r| == k
  {
    if k >= 0 then s[..if k <= |s| then k else |s|]
    else s[..if |s| + k >= 0 then |s| + k else 0]
  }

  /**
   * The length limit of `sanitize_filename`: the name part is cut so that
   * name and extension together take 255 characters; the extension survives,
   * and every character kept comes from the input.
   */
  function FitLength(s: string): (r: string)
    ensures EndsWith(r, SplitExt(s).1)
    ensures StartsWith(s, r[..|r| - |SplitExt(s).1|])
    ensures |SplitExt(s).1| <= MaxFilenameLength <= |s| ==> |r| == MaxFilenameLength
    ensures forall k :: 0 <= k < |r| ==> r[k] in s
  {
    var parts := SplitExt(s);
    CutName(s, parts.0, parts.1, MaxFilenameLength - |parts.1|);
    SliceTo(parts.0, MaxFilenameLength - |parts.1|) + parts.1
  }

  lemma CutName(s: string, name: string, ext: string, k: int)
    requires name + ext == s
    ensures var r := SliceTo(name, k) + ext;
      && EndsWith(r, ext)
      && StartsWith(s, r[..|r| - |ext|])
      && (0 <= k <= |name| ==> |r| == k + |ext|)
      && forall j :: 0 <= j < |r| ==> r[j] in s
  {
    var cut := SliceTo(name, k);
    var r := cut + ext;
    assert r[..|r| - |ext|] == cut;
    assert s[..|cut|] == cut;
    forall j | 0 <= j < |r| ensures r[j] in s {
      if j < |cut| {
        assert r[j] == s[j];
      } else {
        assert r[j] == s[|name| + j - |cut|];
      }
    }
  }

  lemma MaskStep(filename: string, r: string, bad: string, i: nat)
    requires i < |bad| && |r| == |filename|
    requires forall k :: 0 <= k < |r| ==> r[k] == MaskChar(filename[k], bad[..i])
    ensures var r' := ReplaceChar(r, bad[i], '_');
      forall k :: 0 <= k < |r'| ==> r'[k] == MaskChar(filename[k], bad[..i + 1])
  {
    assert bad[..i + 1] == bad[..i] + [bad[i]];
  }

  /**
   * `sanitize_filename`: each invalid character becomes `_`, every other one
   * is kept; a name longer than 255 characters is cut so that it still ends
   * with its extension, and is then exactly 255 long unless the extension
   * alone is longer than that.
   */
  method SanitizeFilename(filename: string) returns (r: string)
    ensures forall i :: 0 <= i < |r| ==> r[i] !in InvalidFilenameChars
    ensures |filename| <= MaxFilenameLength ==> r == Masked(filename, InvalidFilenameChars)
    ensures |filename| > MaxFilenameLength ==> r == FitLength(Masked(filename, InvalidFilenameChars))
  {
    r := filename;
    var i := 0;
    while i < |InvalidFilenameChars|
      invariant 0 <= i <= |InvalidFilenameChars|
      invariant |r| == |filename|
      invariant forall k :: 0 <= k < |r| ==> r[k] == MaskChar(filename[k], InvalidFilenameChars[..i])
    {
      MaskStep(filename, r, InvalidFilenameChars, i);
      r := ReplaceChar(r, InvalidFilenameChars[i], '_');
      i := i + 1;
    }
    assert InvalidFilenameChars[..i] == InvalidFilenameChars;
    assert r == Masked(filename, InvalidFilenameChars);
    MaskedClean(filename, InvalidFilenameChars);
    if |r| > MaxFilenameLength {
      FitClean(r, InvalidFilenameChars);
      r := FitLength(r);
    }
  }

  lemma MaskedClean(filename: string, bad: string)
    requires '_' !in bad
    ensures forall i :: 0 <= i < |filename| ==> Masked(filename, bad)[i] !in bad
  {
  }

  lemma FitClean(s: string, bad: string)
    requires forall i :: 0 <= i < |s| ==> s[i] !in bad
    ensures forall i :: 0 <= i < |FitLength(s)| ==> FitLength(s)[i] !in bad
  {
    var r := FitLength(s);
    forall k | 0 <= k < |r| ensures r[k] !in bad {
      assert r[k] in s;
      var j :| 0 <= j < |s| && s[j] == r[k];
    }
  }

  // ------------------------------------------------------------------
  // escape_markdown
  // ------------------------------------------------------------------

  const MarkdownSpecials: seq<char> :=
    ['_', '*', '[', ']', '(', ')', '~', '`', '>', '#', '+', '-', '=', '|', '{', '}', '.', '!']

  /**
   * `s` with a backslash put before each character of `cs`; with `cs == [c]`
   * this is `s.replace(c, '\\' + c)`.
   */
  function EscapeEach(s: string, cs: seq<char>): string
  {
    if s == [] then []
    else (if s[0] in cs then ['\\', s[0]] else [s[0]]) + EscapeEach(s[1..], cs)
  }

  /** Removes the backslash of every `\c` pair with `c` in `cs`. */
  function Unescape(s: string, cs: seq<char>): string
  {
    if s == [] then []
    else if |s| >= 2 && s[0] == '\\' && s[1] in cs then [s[1]] + Unescape(s[2..], cs)
    else [s[0]] + Unescape(s[1..], cs)
  }

  /** Number of characters of `s` that belong to `cs`. */
  function CountIn(s: string, cs: seq<char>): nat
  {
    if s == [] then 0 else (if s[0] in cs then 1 else 0) + CountIn(s[1..], cs)
  }

  lemma {:induction false} EscapeEachAppend(a: string, b: string, cs: seq<char>)
    ensures EscapeEach(a + b, cs) == EscapeEach(a, cs) + EscapeEach(b, cs)
  {
    if a == [] {
      assert a + b == b;
    } else {
      assert (a + b)[1..] == a[1..] + b;
      EscapeEachAppend(a[1..], b, cs);
    }
  }

  /** Escaping `d` after the characters of `cs` escapes `cs + [d]` at once. */
  lemma {:induction false} EscapeEachStep(s: string, cs: seq<char>, d: char)
    requires d !in cs && d != '\\'
    ensures EscapeEach(EscapeEach(s, cs), [d]) == EscapeEach(s, cs + [d])
  {
    if s != [] {
      var head := if s[0] in cs then ['\\', s[0]] else [s[0]];
      EscapeEachAppend(head, EscapeEach(s[1..], cs), [d]);
      EscapeEachStep(s[1..], cs, d);
      if s[0] in cs {
        assert EscapeEach(head, [d]) == ['\\', s[0]] by {
          assert head[1..] == [s[0]];
          assert [s[0]][1..] == [];
        }
      } else {
        assert EscapeEach(head, [d]) == (if s[0] == d then ['\\', s[0]] else [s[0]]) by {
          assert head[1..] == [];
        }
      }
    }
  }

  lemma {:induction false} EscapeEachLength(s: string, cs: seq<char>)
    ensures |EscapeEach(s, cs)| == |s| + CountIn(s, cs)
  {
    if s != [] {
      EscapeEachLength(s[1..], cs);
    }
  }

  lemma {:induction false} UnescapeEscape(s: string, cs: seq<char>)
    requires '\\' !in cs
    ensures Unescape(EscapeEach(s, cs), cs) == s
  {
    if s != [] {
      var rest := EscapeEach(s[1..], cs);
      UnescapeEscape(s[1..], cs);
      if s[0] in cs {
        assert EscapeEach(s, cs) == ['\\', s[0]] + rest;
        assert (['\\', s[0]] + rest)[2..] == rest;
      } else {
        var e := [s[0]] + rest;
        assert EscapeEach(s, cs) == e;
        if |e| >= 2 && s[0] == '\\' {
          assert e[1] == rest[0];
          assert s[1..] != [];
          assert rest[0] !in cs by {
            assert rest[0] == if s[1..][0] in cs then '\\' else s[1..][0];
          }
        }
        assert e[1..] == rest;
      }
    }
  }

  /**
   * `escape_markdown`: every one of the 18 special characters gets exactly one
   * backslash before it, nothing else changes, so the text grows by the number
   * of special characters and unescaping gives the input back.
   */
  method EscapeMarkdown(text: string) returns (r: string)
    ensures r == EscapeEach(text, MarkdownSpecials)
    ensures |r| == |text| + CountIn(text, MarkdownSpecials)
    ensures Unescape(r, MarkdownSpecials) == text
  {
    r := text;
    var i := 0;
    EscapeNothing(text);
    while i < |MarkdownSpecials|
      invariant 0 <= i <= |MarkdownSpecials|
      invariant r == EscapeEach(text, MarkdownSpecials[..i])
    {
      EscapeEachStep(text, MarkdownSpecials[..i], MarkdownSpecials[i]);
      assert MarkdownSpecials[..i] + [MarkdownSpecials[i]] == MarkdownSpecials[..i + 1];
      r := EscapeEach(r, [MarkdownSpecials[i]]);
      i := i + 1;
    }
    assert MarkdownSpecials[..i] == MarkdownSpecials;
    EscapeEachLength(text, MarkdownSpecials);
    UnescapeEscape(text, MarkdownSpecials);
  }

  lemma {:induction false} EscapeNothing(s: string)
    ensures EscapeEach(s, []) == s
  {
    if s != [] {
      EscapeNothing(s[1..]);
    }
  }

  // ------------------------------------------------------------------
  // get_video_platform
  // ------------------------------------------------------------------

  /** The dictionary of get_video_platform, in its iteration order. */
  const DomainMapping: seq<(string, string)> := [
    ("youtube.com", "YouTube"),
    ("youtu.be", "YouTube"),
    ("tiktok.com", "TikTok"),
    ("instagram.com", "Instagram"),
    ("facebook.com", "Facebook"),
    ("twitter.com", "Twitter"),
    ("x.com", "Twitter/X"),
    ("vimeo.com", "Vimeo"),
    ("dailymotion.com", "Dailymotion"),
    ("twitch.tv", "Twitch")
  ]

  /** The platform of the first table key that occurs in `domain`. */
  function FirstPlatform(table: seq<(string, string)>, domain: string): (r: Option<string>)
    ensures r.None? <==> forall i :: 0 <= i < |table| ==> !Contains(domain, table[i].0)
    ensures r.Some? ==> exists i :: 0 <= i < |table| && Contains(domain, table[i].0)
                               && r.value == table[i].1
                               && forall j :: 0 <= j < i ==> !Contains(domain, table[j].0)
  {
    if table == [] then None
    else if Contains(domain, table[0].0) then Some(table[0].1)
    else
      var r := FirstPlatform(table[1..], domain);
      assert forall i :: 1 <= i < |table| ==> table[i] == table[1..][i - 1];
      r
  }

  /** The photo markers shared by every TikTok-photo test of the program. */
  predicate HasPhotoMarker(url: string)
  {
    Contains(url, "/photo/") || Contains(ToLower(url), "slideshow")
  }

  /**
   * `get_video_platform(url)`; `netloc` is what `urlparse(url).netloc` gives,
   * or None when urlparse raises.
   */
  function GetVideoPlatform(url: string, netloc: Option<string>): Option<string>
  {
    if Contains(url, "tiktok.com") then
      Some(if HasPhotoMarker(url) then "TikTok Photos" else "TikTok")
    else if netloc.None? then None
    else FirstPlatform(DomainMapping, ToLower(netloc.value))
  }

  /**
   * The TikTok test comes first and decides alone between the two TikTok
   * labels; otherwise the answer is the first matching key of the table, and
   * None exactly when no key matches.
   */
  lemma GetVideoPlatformCases(url: string, netloc: Option<string>)
    ensures GetVideoPlatform(url, netloc) == Some("TikTok Photos")
      <==> Contains(url, "tiktok.com") && HasPhotoMarker(url)
    ensures Contains(url, "tiktok.com") && !HasPhotoMarker(url) ==> GetVideoPlatform(url, netloc) == Some("TikTok")
    ensures GetVideoPlatform(url, netloc).None? <==>
      !Contains(url, "tiktok.com")
      && (netloc.None? || forall i :: 0 <= i < |DomainMapping| ==> !Contains(ToLower(netloc.value), DomainMapping[i].0))
    ensures !Contains(url, "tiktok.com") && netloc.Some? && GetVideoPlatform(url, netloc).Some? ==>
      exists i :: 0 <= i < |DomainMapping| && Contains(ToLower(netloc.value), DomainMapping[i].0)
        && GetVideoPlatform(url, netloc).value == DomainMapping[i].1
        && forall j :: 0 <= j < i ==> !Contains(ToLower(netloc.value), DomainMapping[j].0)
  {
    if !Contains(url, "tiktok.com") && netloc.Some? {
      var r := FirstPlatform(DomainMapping, ToLower(netloc.value));
      if r.Some? {
        var i :| 0 <= i < |DomainMapping| && r.value == DomainMapping[i].1;
        assert r.value != "TikTok Photos";
      }
    }
  }

  // ------------------------------------------------------------------
  // is_spam_url
  // ------------------------------------------------------------------

  const SpamIndicators: seq<string> := [
    "taphoammo.net", "gian-hang", "tai-khoan", "pro-", "ban-nick", "mua-ban", "kiem-tien",
    "hack-", "mod-apk", "download-", "crack-", "free-fire", "pubg-", "lien-quan"
  ]

  /** Some indicator occurs in the lowercased URL. */
  predicate SpamIndicated(url: string)
  {
    exists i :: 0 <= i < |SpamIndicators| && Contains(ToLower(url), SpamIndicators[i])
  }

  /** `is_spam_url`: true exactly when some indicator occurs in `url.lower()`. */
  method IsSpamUrl(url: string) returns (spam: bool)
    ensures spam <==> SpamIndicated(url)
  {
    var urlLower := ToLower(url);
    var i := 0;
    while i < |SpamIndicators|
      invariant 0 <= i <= |SpamIndicators|
      invariant forall j :: 0 <= j < i ==> !Contains(urlLower, SpamIndicators[j])
    {
      if Contains(urlLower, SpamIndicators[i]) {
        return true;
      }
      i := i + 1;
    }
    return false;
  }

  /** The verdict does not depend on letter case. */
  lemma SpamIgnoresCase(url: string)
    ensures SpamIndicated(url) <==> SpamIndicated(ToLower(url))
  {
    ToLowerIdempotent(url);
  }

  // ------------------------------------------------------------------
  // create_progress_bar (the bar; the float percentage is not modelled)
  // ------------------------------------------------------------------

  const FullBlock: char := '█'
  const EmptyBlock: char := '░'

  /** Python's `a // b`, which rounds towards negative infinity. */
  function FloorDiv(a: int, b: int): int
    requires b != 0
  {
    if b > 0 then a / b else (-a) / (-b)
  }

  /** The bar of `create_progress_bar(current, total, length)`. */
  function ProgressBar(current: int, total: int, length: int): string
  {
    if total == 0 then Repeat(FullBlock, length)
    else
      var filled := FloorDiv(length * current, total);
      Repeat(FullBlock, filled) + Repeat(EmptyBlock, length - filled)
  }

  /** With nothing to transfer the bar is `length` full blocks. */
  lemma ProgressBarIdle(current: int, length: nat)
    ensures |ProgressBar(current, 0, length)| == length
    ensures CountChar(ProgressBar(current, 0, length), FullBlock) == length
  {
    CountCharRepeat(FullBlock, FullBlock, length);
  }

  /**
   * For 0 <= current <= total the bar has exactly `length` blocks, the first
   * `length*current//total` of them full and the rest empty.
   */
  lemma ProgressBarShape(current: int, total: int, length: nat)
    requires 0 <= current <= total && 0 < total
    ensures var bar := ProgressBar(current, total, length);
      && |bar| == length
      && CountChar(bar, FullBlock) == length * current / total
      && forall i :: 0 <= i < |bar| ==> bar[i] == if i < length * current / total then FullBlock else EmptyBlock
  {
    ProgressBarCount(current, total, length);
  }

  /** The number of full blocks is `length*current//total`, at most `length`. */
  lemma ProgressBarCount(current: int, total: int, length: nat)
    requires 0 <= current <= total && 0 < total
    ensures 0 <= length * current / total <= length
    ensures ProgressBar(current, total, length)
         == Repeat(FullBlock, length * current / total) + Repeat(EmptyBlock, length - length * current / total)
    ensures CountChar(ProgressBar(current, total, length), FullBlock) == length * current / total
  {
    var product := length * current;
    var filled := product / total;
    assert 0 <= filled <= length by {
      MulMono(current, total, length);
      assert product <= length * total;
      DivBound(product, total, length);
    }
    CountCharAppend(Repeat(FullBlock, filled), Repeat(EmptyBlock, length - filled), FullBlock);
    CountCharRepeat(FullBlock, FullBlock, filled);
    CountCharRepeat(EmptyBlock, FullBlock, length - filled);
  }

  lemma DivBound(a: int, b: int, c: nat)
    requires 0 <= a <= c * b && 0 < b
    ensures 0 <= a / b <= c
  {
    var q := a / b;
    assert q * b <= a;
    assert q >= c + 1 ==> q * b >= (c + 1) * b by {
      if q >= c + 1 { MulMono(c + 1, q, b); }
    }
  }

  /** More progress never shows fewer full blocks. */
  lemma ProgressBarMonotone(c1: int, c2: int, total: int, length: nat)
    requires 0 <= c1 <= c2 <= total && 0 < total
    ensures CountChar(ProgressBar(c1, total, length), FullBlock)
         <= CountChar(ProgressBar(c2, total, length), FullBlock)
  {
    ProgressBarCount(c1, total, length);
    ProgressBarCount(c2, total, length);
    var p1, p2 := length * c1, length * c2;
    MulMono(0, c1, length);
    MulMono(c1, c2, length);
    DivMonotone(p1, p2, total);
  }

  lemma DivMonotone(a: int, b: int, d: int)
    requires 0 <= a <= b && 0 < d
    ensures a / d <= b / d
  {
    var p, q := a / d, b / d;
    assert p * d <= a;
    assert b < (q + 1) * d;
    assert p >= q + 1 ==> p * d >= (q + 1) * d by {
      if p >= q + 1 { MulMono(q + 1, p, d); }
    }
  }

  lemma MulMono(x: int, y: int, d: nat)
    requires x <= y
    ensures x * d <= y * d && d * x <= d * y
  {
    assert y * d - x * d == (y - x) * d;
    assert d * x == x * d && d * y == y * d;
  }

  // ------------------------------------------------------------------
  // validate_chat_id
  // ------------------------------------------------------------------

  /** The ASCII characters Python's `int()` skips around a number. */
  predicate IsPySpace(c: char)
  {
    c in " \t\n\r\U{b}\U{c}\U{1c}\U{1d}\U{1e}\U{1f}"
  }

  function StripLeft(s: string): (r: string)
    ensures |r| <= |s|
  {
    if s != [] && IsPySpace(s[0]) then StripLeft(s[1..]) else s
  }

  function StripRight(s: string): (r: string)
    ensures |r| <= |s|
  {
    if s != [] && IsPySpace(s[|s| - 1]) then StripRight(s[..|s| - 1]) else s
  }

  /** What `int()` accepts after the sign: digits, single `_` between digits. */
  predicate IsDigitGroups(s: string)
  {
    && |s| > 0 && IsDigit(s[0]) && IsDigit(s[|s| - 1])
    && (forall i :: 0 <= i < |s| ==> IsDigit(s[i]) || s[i] == '_')
    && (forall i :: 0 <= i < |s| - 1 ==> s[i] == '_' ==> s[i + 1] != '_')
  }

  /** `s.replace(c, '')`. */
  function RemoveChar(s: string, c: char): (r: string)
    ensures forall i :: 0 <= i < |r| ==> r[i] != c
    ensures |r| <= |s|
  {
    if s == [] then [] else (if s[0] == c then [] else [s[0]]) + RemoveChar(s[1..], c)
  }

  lemma {:induction false} RemoveCharKeepsDigits(s: string)
    requires forall i :: 0 <= i < |s| ==> IsDigit(s[i]) || s[i] == '_'
    ensures AllDigits(RemoveChar(s, '_'))
  {
    if s != [] {
      RemoveCharKeepsDigits(s[1..]);
    }
  }

  lemma {:induction false} RemoveCharAbsent(s: string, c: char)
    requires forall i :: 0 <= i < |s| ==> s[i] != c
    ensures RemoveChar(s, c) == s
  {
    if s != [] {
      RemoveCharAbsent(s[1..], c);
    }
  }

  /** The magnitude `int()` reads from unsigned text, or None. */
  function ParseMagnitude(t: string): Option<nat>
  {
    if IsDigitGroups(t) then
      RemoveCharKeepsDigits(t);
      Some(DigitsValue(RemoveChar(t, '_')))
    else None
  }

  /** `int(s)` on ASCII text in base 10: None where Python raises ValueError. */
  function ParsePyInt(s: string): Option<int>
  {
    var t := StripRight(StripLeft(s));
    if |t| > 0 && (t[0] == '-' || t[0] == '+') then
      match ParseMagnitude(t[1..])
      case None => None
      case Some(v) => Some(if t[0] == '-' then -(v as int) else v as int)
    else
      match ParseMagnitude(t)
      case None => None
      case Some(v) => Some(v)
  }

  predicate IsAlnumString(s: string)
  {
    |s| > 0 && forall i :: 0 <= i < |s| ==> IsAlnum(s[i])
  }

  /** `validate_chat_id`: an `@`-name or anything `int()` accepts. */
  predicate ValidateChatId(chatId: string)
  {
    if StartsWith(chatId, "@") then |chatId| > 1 && IsAlnumString(RemoveChar(chatId[1..], '_'))
    else ParsePyInt(chatId).Some?
  }

  /** `int(str(n)) == n` on the model: every rendered integer parses back. */
  lemma ParsePyIntRoundTrip(n: int)
    ensures ParsePyInt(IntToString(n)) == Some(n)
  {
    if n < 0 {
      NegativeRoundTrip(n);
    } else {
      NatToStringRoundTrip(n);
      ParseUnsigned(NatToString(n));
    }
  }

  lemma NegativeRoundTrip(n: int)
    requires n < 0
    ensures ParsePyInt(IntToString(n)) == Some(n)
  {
    NatToStringRoundTrip(-n);
    ParseNegative(NatToString(-n));
    ParsedAs(IntToString(n), n);
  }

  lemma ParsedAs(s: string, n: int)
    requires ParsePyInt(s).Some? && ParsePyInt(s).value == n
    ensures ParsePyInt(s) == Some(n)
  {
  }

  lemma ParseUnsigned(d: string)
    requires |d| > 0 && AllDigits(d)
    ensures ParsePyInt(d) == Some(DigitsValue(d))
  {
    DigitNotSpace(d[0]);
    DigitNotSpace(d[|d| - 1]);
    StripNothing(d);
    ParseNoSign(d);
    ParseMagnitudeDigits(d);
  }

  lemma ParseNoSign(t: string)
    requires StripRight(StripLeft(t)) == t && |t| > 0 && IsDigit(t[0])
    ensures ParsePyInt(t) == ParseMagnitude(t)
  {
    assert !(t[0] == '-' || t[0] == '+');
    match ParseMagnitude(t)
    case None =>
    case Some(v) =>
  }

  lemma ParseNegative(d: string)
    requires |d| > 0 && AllDigits(d)
    ensures ParsePyInt("-" + d).Some? && ParsePyInt("-" + d).value == -(DigitsValue(d) as int)
  {
    var s := "-" + d;
    assert s[1..] == d && s[0] == '-';
    assert IsDigit(d[|d| - 1]) && s[|s| - 1] == d[|d| - 1];
    DigitNotSpace(s[|s| - 1]);
    StripNothing(s);
    ParseMagnitudeDigits(d);
    ParseMinus(s, DigitsValue(d));
  }

  lemma ParseMinus(t: string, v: nat)
    requires StripLeft(t) == t && StripRight(t) == t && |t| > 0 && t[0] == '-'
    requires ParseMagnitude(t[1..]) == Some(v)
    ensures ParsePyInt(t).Some? && ParsePyInt(t).value == -(v as int)
  {
  }

  lemma ParseMagnitudeDigits(d: string)
    requires |d| > 0 && AllDigits(d)
    ensures ParseMagnitude(d) == Some(DigitsValue(d))
  {
    DigitsAreGroups(d);
  }

  lemma DigitNotSpace(c: char)
    requires IsDigit(c)
    ensures !IsPySpace(c)
  {
  }

  lemma DigitsAreGroups(d: string)
    requires |d| > 0 && AllDigits(d)
    ensures IsDigitGroups(d) && RemoveChar(d, '_') == d
  {
    RemoveCharAbsent(d, '_');
  }

  lemma StripNothing(s: string)
    requires |s| > 0 && !IsPySpace(s[0]) && !IsPySpace(s[|s| - 1])
    ensures StripLeft(s) == s && StripRight(s) == s
  {
  }

  /** Every numeric id the program prints is a valid chat id. */
  lemma NumericChatIdValid(n: int)
    ensures ValidateChatId(IntToString(n))
  {
    ParsePyIntRoundTrip(n);
    IntToStringNoAt(n);
  }

  lemma IntToStringNoAt(n: int)
    ensures !StartsWith(IntToString(n), "@")
  {
    var s := IntToString(n);
    if n < 0 {
      assert s[0] == '-';
    } else {
      NatToStringRoundTrip(n);
      assert IsDigit(s[0]);
    }
    assert s[..1] != "@";
  }

  /**
   * An `@`-id is valid exactly when what follows the `@`, with its
   * underscores removed, is a non-empty run of letters and digits; the
   * length test of the source is implied by that.
   */
  lemma UsernameChatId(name: string)
    ensures ValidateChatId("@" + name) <==> IsAlnumString(RemoveChar(name, '_'))
  {
    assert ("@" + name)[1..] == name;
    if IsAlnumString(RemoveChar(name, '_')) {
      assert |name| >= |RemoveChar(name, '_')| > 0;
    }
  }

  // ------------------------------------------------------------------
  // Allow-list: is_user_allowed, get_all_allowed_users, add/remove
  // ------------------------------------------------------------------

  /** The three shapes the ALLOWED_USERS_STR setting can take. */
  datatype AllowlistSource = Unset | SingleId(id: int) | IdSet(ids: set<int>)

  /** ADMIN_USER_ID as a user id, or nothing; 0 is falsy in Python. */
  function AdminIds(admin: Option<int>): set<int>
  {
    if admin.Some? && admin.value != 0 then {admin.value} else {}
  }

  /** What get_all_allowed_users takes from ALLOWED_USERS_STR. */
  function EnvIds(env: AllowlistSource): set<int>
  {
    match env
    case Unset => {}
    case SingleId(id) => if id != 0 then {id} else {}
    case IdSet(ids) => ids
  }

  /** `get_all_allowed_users()`: admin, environment and file users together. */
  function GetAllAllowedUsers(admin: Option<int>, env: AllowlistSource, fileUsers: set<int>): (all: set<int>)
    ensures fileUsers <= all && EnvIds(env) <= all
    ensures admin.Some? && admin.value != 0 ==> admin.value in all
    ensures forall u :: u in all <==>
              || (admin == Some(u) && u != 0)
              || (env == SingleId(u) && u != 0)
              || (env.IdSet? && u in env.ids)
              || u in fileUsers
  {
    AdminIds(admin) + EnvIds(env) + fileUsers
  }

  /**
   * `is_user_allowed(u)`, branch by branch as the source tests it; it agrees
   * with membership in `get_all_allowed_users()`.
   */
  function IsUserAllowed(admin: Option<int>, env: AllowlistSource, fileUsers: set<int>, u: int): (r: bool)
    ensures r <==> u in GetAllAllowedUsers(admin, env, fileUsers)
  {
    if admin.Some? && admin.value != 0 && u == admin.value then true
    else if env.SingleId? && env.id != 0 && u == env.id then true
    else if env.IdSet? && env.ids != {} && u in env.ids then true
    else u in fileUsers
  }

  /** The admin is always allowed. */
  lemma AdminAlwaysAllowed(admin: int, env: AllowlistSource, fileUsers: set<int>)
    requires admin != 0
    ensures IsUserAllowed(Some(admin), env, fileUsers, admin)
  {
  }

  /** The load-modify-save state of allowed_users.json. */
  class AllowedUsersFile {
    var users: set<int>

    constructor (users: set<int>)
      ensures this.users == users
    {
      this.users := users;
    }

    /** The set load_allowed_users() returns: empty when the file cannot be read. */
    function Loaded(loadOk: bool): set<int>
      reads this
    {
      if loadOk then users else {}
    }

    /**
     * `add_allowed_user(u)`: the file becomes the loaded set plus `u` when
     * saving succeeds, and the result is the save flag.
     */
    method AddAllowedUser(u: int, loadOk: bool, saveOk: bool) returns (saved: bool)
      modifies this
      ensures saved == saveOk
      ensures users == if saveOk then old(Loaded(loadOk)) + {u} else old(users)
    {
      var loaded := Loaded(loadOk);
      loaded := loaded + {u};
      if saveOk {
        users := loaded;
      }
      saved := saveOk;
    }

    /** `remove_allowed_user(u)`: the loaded set minus `u`, if saving succeeds. */
    method RemoveAllowedUser(u: int, loadOk: bool, saveOk: bool) returns (saved: bool)
      modifies this
      ensures saved == saveOk
      ensures users == if saveOk then old(Loaded(loadOk)) - {u} else old(users)
    {
      var loaded := Loaded(loadOk);
      loaded := loaded - {u};
      if saveOk {
        users := loaded;
      }
      saved := saveOk;
    }
  }

  /** After a successful add the user is allowed, whatever the other settings. */
  lemma AddedUserAllowed(admin: Option<int>, env: AllowlistSource, loaded: set<int>, u: int)
    ensures IsUserAllowed(admin, env, loaded + {u}, u)
  {
  }

  /**
   * After a successful remove the user is no longer allowed unless the admin
   * setting or the environment still names them; the file alone never
   * revokes the admin.
   */
  lemma RemovedUserAllowedIffElsewhere(admin: Option<int>, env: AllowlistSource, loaded: set<int>, u: int)
    ensures IsUserAllowed(admin, env, loaded - {u}, u) <==> u in AdminIds(admin) + EnvIds(env)
  {
  }
}
