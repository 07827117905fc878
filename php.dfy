/**
 * The PHP built-ins the template's core leans on, modelled on values:
 * explode/implode, strpos, rtrim, filter_var(FILTER_SANITIZE_URL), ucwords,
 * urldecode, parse_url(PHP_URL_PATH), array_unique, array_values and empty().
 * Strings are sequences of characters; a character stands for one byte.
 */
module Php {

  datatype Option<+T> = None | Some(value: T) {
    function GetOr(default: T): T {
      if Some? then value else default
    }
  }

  /** A PHP value, as far as empty() and loose comparison with "" can tell them apart. */
  datatype Value =
    | Null
    | Bool(b: bool)
    | Int(i: int)
    | Float(f: real)
    | Str(s: string)
    | Array(items: seq<Value>)

  /** empty($v): null, false, 0, 0.0, "", "0" and [] are empty. */
  predicate Empty(v: Value) {
    match v
    case Null => true
    case Bool(b) => !b
    case Int(i) => i == 0
    case Float(f) => f == 0.0
    case Str(s) => s == "" || s == "0"
    case Array(items) => |items| == 0
  }

  /**
   * `$v == ""` under PHP 8 loose comparison: null and false convert to "",
   * a number is compared as its decimal text (never ""), an array is never
   * equal to a string.
   */
  predicate LooselyEqualsEmptyString(v: Value) {
    match v
    case Null => true
    case Bool(b) => !b
    case Int(_) => false
    case Float(_) => false
    case Str(s) => s == ""
    case Array(_) => false
  }

  // ---------------------------------------------------------------------------
  // explode / implode / strpos

  /**
   * explode($sep, $s) for a non-empty separator: the pieces between the
   * leftmost non-overlapping occurrences of sep.
   */
  function Explode(s: string, sep: string): (r: seq<string>)
    requires |sep| > 0
    ensures |r| >= 1
    decreases |s|
  {
    if |s| < |sep| then [s]
    else if s[..|sep|] == sep then [""] + Explode(s[|sep|..], sep)
    else
      var rest := Explode(s[1..], sep);
      [[s[0]] + rest[0]] + rest[1..]
  }

  /** implode($sep, $parts) (also spelled join). */
  function Implode(sep: string, parts: seq<string>): string {
    if |parts| == 0 then ""
    else if |parts| == 1 then parts[0]
    else parts[0] + sep + Implode(sep, parts[1..])
  }

  /** strpos($s, $sub) !== false. */
  predicate Contains(s: string, sub: string)
    decreases |s|
  {
    |sub| == 0 || (|s| >= |sub| && (s[..|sub|] == sub || Contains(s[1..], sub)))
  }

  /** strpos($s, $c) !== false for a one-character needle: the character occurs. */
  lemma {:induction false} ContainsChar(s: string, c: char)
    ensures Contains(s, [c]) <==> c in s
    decreases |s|
  {
    if |s| > 0 {
      ContainsChar(s[1..], c);
      assert s == [s[0]] + s[1..];
    }
  }

  /** A string that contains a non-empty needle contains the needle's first character. */
  lemma {:induction false} ContainsHead(s: string, sub: string)
    requires |sub| > 0 && Contains(s, sub)
    ensures sub[0] in s
    decreases |s|
  {
    if s[..|sub|] != sub {
      ContainsHead(s[1..], sub);
    }
  }

  lemma ImplodeCons(sep: string, a: string, t: seq<string>)
    requires |t| >= 1
    ensures Implode(sep, [a] + t) == a + sep + Implode(sep, t)
  {
    assert ([a] + t)[1..] == t;
  }

  /** Gluing a character onto the first piece glues it onto the joined string. */
  lemma ImplodeGlueHead(c: char, pieces: seq<string>, sep: string)
    requires |pieces| >= 1
    ensures Implode(sep, [[c] + pieces[0]] + pieces[1..]) == [c] + Implode(sep, pieces)
  {
    if |pieces| > 1 {
      ImplodeCons(sep, [c] + pieces[0], pieces[1..]);
      assert pieces == [pieces[0]] + pieces[1..];
      ImplodeCons(sep, pieces[0], pieces[1..]);
      assert ([c] + pieces[0]) + sep + Implode(sep, pieces[1..])
          == [c] + (pieces[0] + sep + Implode(sep, pieces[1..]));
    }
  }

  /** Joining the pieces with the separator gives back the exploded string. */
  lemma {:induction false} ImplodeExplode(s: string, sep: string)
    requires |sep| > 0
    ensures Implode(sep, Explode(s, sep)) == s
    decreases |s|
  {
    if |s| < |sep| {
    } else if s[..|sep|] == sep {
      var rest := Explode(s[|sep|..], sep);
      assert Explode(s, sep) == [""] + rest;
      ImplodeExplode(s[|sep|..], sep);
      ImplodeCons(sep, "", rest);
      assert "" + sep + s[|sep|..] == s;
    } else {
      var rest := Explode(s[1..], sep);
      assert Explode(s, sep) == [[s[0]] + rest[0]] + rest[1..];
      ImplodeExplode(s[1..], sep);
      ImplodeGlueHead(s[0], rest, sep);
      assert s == [s[0]] + s[1..];
    }
  }

  /** explode yields more than one piece exactly when the separator occurs. */
  lemma {:induction false} ExplodeSplitsIff(s: string, sep: string)
    requires |sep| > 0
    ensures |Explode(s, sep)| > 1 <==> Contains(s, sep)
    decreases |s|
  {
    if |s| < |sep| {
    } else if s[..|sep|] == sep {
    } else {
      ExplodeSplitsIff(s[1..], sep);
    }
  }

  /** No piece of a split on a one-character separator contains that character. */
  lemma {:induction false} ExplodePiecesAvoid(s: string, sep: string)
    requires |sep| == 1
    ensures forall i :: 0 <= i < |Explode(s, sep)| ==> sep[0] !in Explode(s, sep)[i]
    decreases |s|
  {
    if |s| < |sep| {
      assert s == "";
    } else if s[..|sep|] == sep {
      ExplodePiecesAvoid(s[|sep|..], sep);
      var rest := Explode(s[|sep|..], sep);
      assert forall i :: 1 <= i < |[""] + rest| ==> ([""] + rest)[i] == rest[i - 1];
    } else {
      ExplodePiecesAvoid(s[1..], sep);
      var rest := Explode(s[1..], sep);
      assert s[0] != sep[0] by { assert s[..1] == [s[0]]; }
      var r := [[s[0]] + rest[0]] + rest[1..];
      assert forall i :: 1 <= i < |r| ==> r[i] == rest[i];
    }
  }

  /** Without an occurrence of the separator, explode returns the string alone. */
  lemma ExplodeWithoutSeparator(s: string, sep: string)
    requires |sep| > 0 && !Contains(s, sep)
    ensures Explode(s, sep) == [s]
  {
    ExplodeSplitsIff(s, sep);
    ImplodeExplode(s, sep);
  }

  /** A leading piece that cannot start the separator is split off whole. */
  lemma {:induction false} ExplodeAfterPiece(a: string, sep: string, b: string)
    requires |sep| > 0
    requires forall i :: 0 <= i < |a| ==> a[i] != sep[0]
    ensures Explode(a + sep + b, sep) == [a] + Explode(b, sep)
    decreases |a|
  {
    var s := a + sep + b;
    if |a| == 0 {
      assert s[..|sep|] == sep;
      assert s[|sep|..] == b;
    } else {
      assert s[0] == a[0];
      assert s[..|sep|] != sep by { assert s[..|sep|][0] == a[0]; }
      assert s[1..] == a[1..] + sep + b;
      ExplodeAfterPiece(a[1..], sep, b);
      assert [s[0]] + a[1..] == a;
    }
  }

  // ---------------------------------------------------------------------------
  // rtrim, filter_var(FILTER_SANITIZE_URL), ucwords, urldecode, parse_url

  /** The last piece of a split on one character is a suffix, and a '/'-free one: it starts after the last separator. */
  lemma {:induction false} ExplodeLastPiece(s: string, c: char)
    ensures var l := Explode(s, [c])[|Explode(s, [c])| - 1];
      && |l| <= |s| && l == s[|s| - |l|..]
      && (|l| < |s| ==> s[|s| - |l| - 1] == c)
      && (|Explode(s, [c])| > 1 ==> |l| < |s|)
    decreases |s|
  {
    var sep := [c];
    if |s| < 1 {
    } else if s[..1] == sep {
      var rest := Explode(s[1..], sep);
      assert Explode(s, sep) == [""] + rest;
      ExplodeLastPiece(s[1..], c);
      assert s[1..][|s| - 1 - |rest[|rest| - 1]|..] == s[|s| - |rest[|rest| - 1]|..];
      assert s[0] == c;
    } else {
      var rest := Explode(s[1..], sep);
      assert Explode(s, sep) == [[s[0]] + rest[0]] + rest[1..];
      if |rest| == 1 {
        ImplodeExplode(s[1..], sep);
        assert rest[0] == s[1..];
        assert [s[0]] + s[1..] == s;
      } else {
        ExplodeLastPiece(s[1..], c);
        assert Explode(s, sep)[|Explode(s, sep)| - 1] == rest[|rest| - 1];
        assert s[1..][|s| - 1 - |rest[|rest| - 1]|..] == s[|s| - |rest[|rest| - 1]|..];
      }
    }
  }

  /**
   * basename($path) for '/'-separated paths: the last component, trailing '/'
   * ignored: the longest '/'-free suffix of the path stripped of trailing '/'.
   */
  function Basename(path: string): (r: string)
    ensures '/' !in r
    ensures var t := RTrim(path, '/');
      && |r| <= |t| && r == t[|t| - |r|..]
      && (|r| < |t| ==> t[|t| - |r| - 1] == '/')
  {
    var trimmed := RTrim(path, '/');
    ExplodePiecesAvoid(trimmed, "/");
    ExplodeLastPiece(trimmed, '/');
    Explode(trimmed, "/")[|Explode(trimmed, "/")| - 1]
  }

  /** A path without '/' is its own basename. */
  lemma BasenameOfName(path: string)
    requires '/' !in path
    ensures Basename(path) == path
  {
    var trimmed := RTrim(path, '/');
    assert trimmed == path;
    ContainsChar(path, '/');
    ExplodeWithoutSeparator(path, "/");
  }

  /** rtrim($s, $c) for one character: every trailing c is removed, nothing else. */
  function RTrim(s: string, c: char): (r: string)
    ensures r <= s
    ensures |r| == 0 || r[|r| - 1] != c
    ensures forall i :: |r| <= i < |s| ==> s[i] == c
    decreases |s|
  {
    if |s| > 0 && s[|s| - 1] == c then RTrim(s[..|s| - 1], c) else s
  }

  /** The characters FILTER_SANITIZE_URL keeps: letters, digits and $-_.+!*'(),{}|\^~[]`<>#%";/?:@&= */
  predicate UrlChar(ch: char) {
    || ('a' <= ch <= 'z')
    || ('A' <= ch <= 'Z')
    || ('0' <= ch <= '9')
    || ch in "$-_.+!*'(),{}|\\^~[]`<>#%\";/?:@&="
  }

  /** filter_var($s, FILTER_SANITIZE_URL): drops every character outside UrlChar, keeping order. */
  function SanitizeUrl(s: string): (r: string)
    ensures |r| <= |s|
    ensures forall i :: 0 <= i < |r| ==> UrlChar(r[i])
    ensures (forall i :: 0 <= i < |s| ==> UrlChar(s[i])) ==> r == s
    decreases |s|
  {
    if |s| == 0 then ""
    else (if UrlChar(s[0]) then [s[0]] else "") + SanitizeUrl(s[1..])
  }

  /** Every occurrence of every URL character survives sanitising. */
  lemma {:induction false} SanitizeUrlKeepsUrlChars(s: string)
    ensures forall ch :: UrlChar(ch) ==> multiset(SanitizeUrl(s))[ch] == multiset(s)[ch]
    decreases |s|
  {
    if |s| > 0 {
      SanitizeUrlKeepsUrlChars(s[1..]);
      assert s == [s[0]] + s[1..];
    }
  }

  /** Sanitising works character by character: the kept characters stay in their order. */
  lemma {:induction false} SanitizeUrlConcat(a: string, b: string)
    ensures SanitizeUrl(a + b) == SanitizeUrl(a) + SanitizeUrl(b)
    decreases |a|
  {
    if |a| > 0 {
      assert (a + b)[0] == a[0] && (a + b)[1..] == a[1..] + b;
      SanitizeUrlConcat(a[1..], b);
    } else {
      assert a + b == b;
    }
  }

  /** The word separators of ucwords' default delimiter list " \t\r\n\f\v". */
  predicate WordDelimiter(ch: char) {
    ch == ' ' || ch == '\t' || ch == '\r' || ch == '\n' || ch == '\U{000C}' || ch == '\U{000B}'
  }

  function ToUpper(ch: char): char {
    if 'a' <= ch <= 'z' then (ch as int - 32) as char else ch
  }

  /** ucwords($s): the first character of every word is upper-cased. */
  function UcWords(s: string): (r: string)
    ensures |r| == |s|
  {
    seq(|s|, i requires 0 <= i < |s| =>
      if i == 0 || WordDelimiter(s[i - 1]) then ToUpper(s[i]) else s[i])
  }

  predicate IsHex(ch: char) {
    ('0' <= ch <= '9') || ('a' <= ch <= 'f') || ('A' <= ch <= 'F')
  }

  function HexValue(ch: char): (v: nat)
    requires IsHex(ch)
    ensures v < 16
  {
    if '0' <= ch <= '9' then ch as int - '0' as int
    else if 'a' <= ch <= 'f' then ch as int - 'a' as int + 10
    else ch as int - 'A' as int + 10
  }

  /** urldecode($s): "+" becomes a space and "%hh" the byte hh; anything else is kept. */
  function UrlDecode(s: string): (r: string)
    ensures |r| <= |s|
    decreases |s|
  {
    if |s| == 0 then ""
    else if s[0] == '+' then " " + UrlDecode(s[1..])
    else if s[0] == '%' && |s| >= 3 && IsHex(s[1]) && IsHex(s[2]) then
      [(16 * HexValue(s[1]) + HexValue(s[2])) as char] + UrlDecode(s[3..])
    else [s[0]] + UrlDecode(s[1..])
  }

  /** A string without "%" and "+" decodes to itself. */
  lemma {:induction false} UrlDecodePlain(s: string)
    requires forall i :: 0 <= i < |s| ==> s[i] != '%' && s[i] != '+'
    ensures UrlDecode(s) == s
    decreases |s|
  {
    if |s| > 0 {
      UrlDecodePlain(s[1..]);
      assert s == [s[0]] + s[1..];
    }
  }

  /** parse_url($uri, PHP_URL_PATH) for a request URI: the text before the first "?" or "#". */
  function UrlPath(uri: string): (r: string)
    ensures r <= uri
    ensures forall i :: 0 <= i < |r| ==> r[i] != '?' && r[i] != '#'
    ensures |r| < |uri| ==> uri[|r|] == '?' || uri[|r|] == '#'
    decreases |uri|
  {
    if |uri| == 0 || uri[0] == '?' || uri[0] == '#' then ""
    else [uri[0]] + UrlPath(uri[1..])
  }

  /** str_replace($from, $to, $s) for single characters. */
  function ReplaceChar(s: string, from: char, to: char): (r: string)
    ensures |r| == |s|
  {
    seq(|s|, i requires 0 <= i < |s| => if s[i] == from then to else s[i])
  }

  lemma ReplaceCharConcat(a: string, b: string, from: char, to: char)
    ensures ReplaceChar(a + b, from, to) == ReplaceChar(a, from, to) + ReplaceChar(b, from, to)
  {
    var l := ReplaceChar(a + b, from, to);
    var r := ReplaceChar(a, from, to) + ReplaceChar(b, from, to);
    assert forall i :: 0 <= i < |l| ==> l[i] == r[i];
  }

  lemma ReplaceCharAbsent(s: string, from: char, to: char)
    requires from !in s
    ensures ReplaceChar(s, from, to) == s
  {
  }

  /** str_replace($from, $to, implode($from, $parts)) is implode($to, $parts) when no part holds $from. */
  lemma {:induction false} ReplaceCharImplode(parts: seq<string>, from: char, to: char)
    requires forall i :: 0 <= i < |parts| ==> from !in parts[i]
    ensures ReplaceChar(Implode([from], parts), from, to) == Implode([to], parts)
    decreases |parts|
  {
    if |parts| == 1 {
      ReplaceCharAbsent(parts[0], from, to);
    } else if |parts| > 1 {
      ReplaceCharImplode(parts[1..], from, to);
      ReplaceCharConcat(parts[0] + [from], Implode([from], parts[1..]), from, to);
      ReplaceCharConcat(parts[0], [from], from, to);
      ReplaceCharAbsent(parts[0], from, to);
    }
  }

  // ---------------------------------------------------------------------------
  // array_unique and array_values

  /** array_unique($s) followed by re-indexing: the elements not yet seen, left to right. */
  function Unique(s: seq<string>): seq<string> {
    UniqueAfter(s, {})
  }

  function UniqueAfter(s: seq<string>, seen: set<string>): seq<string>
    decreases |s|
  {
    if |s| == 0 then []
    else if s[0] in seen then UniqueAfter(s[1..], seen)
    else [s[0]] + UniqueAfter(s[1..], seen + {s[0]})
  }

  /** Reference definition: the elements of s at the positions where they occur first. */
  function FirstOccurrences(s: seq<string>): seq<string>
    decreases |s|
  {
    if |s| == 0 then []
    else
      var init := s[..|s| - 1];
      FirstOccurrences(init) + (if s[|s| - 1] in init then [] else [s[|s| - 1]])
  }

  /** a can be obtained from b by deleting elements. */
  predicate IsSubsequence(a: seq<string>, b: seq<string>)
    decreases |b|
  {
    |a| == 0 || (|b| > 0 && ((a[0] == b[0] && IsSubsequence(a[1..], b[1..])) || IsSubsequence(a, b[1..])))
  }

  predicate NoRepeats(s: seq<string>) {
    forall i, j :: 0 <= i < j < |s| ==> s[i] != s[j]
  }

  lemma {:induction false} UniqueAfterMembers(s: seq<string>, seen: set<string>)
    ensures forall x :: x in UniqueAfter(s, seen) <==> x in s && x !in seen
    decreases |s|
  {
    if |s| > 0 {
      if s[0] in seen {
        UniqueAfterMembers(s[1..], seen);
      } else {
        UniqueAfterMembers(s[1..], seen + {s[0]});
      }
      assert forall x :: x in s <==> x == s[0] || x in s[1..];
    }
  }

  lemma {:induction false} UniqueAfterNoRepeats(s: seq<string>, seen: set<string>)
    ensures NoRepeats(UniqueAfter(s, seen))
    decreases |s|
  {
    if |s| > 0 {
      if s[0] in seen {
        UniqueAfterNoRepeats(s[1..], seen);
      } else {
        var tail := UniqueAfter(s[1..], seen + {s[0]});
        UniqueAfterNoRepeats(s[1..], seen + {s[0]});
        UniqueAfterMembers(s[1..], seen + {s[0]});
        assert s[0] !in tail;
        var r := [s[0]] + tail;
        forall i, j | 0 <= i < j < |r| ensures r[i] != r[j] {
          if i == 0 {
            assert r[j] == tail[j - 1];
          } else {
            assert r[i] == tail[i - 1] && r[j] == tail[j - 1];
          }
        }
      }
    }
  }

  lemma {:induction false} UniqueAfterIsSubsequence(s: seq<string>, seen: set<string>)
    ensures IsSubsequence(UniqueAfter(s, seen), s)
    decreases |s|
  {
    if |s| > 0 {
      if s[0] in seen {
        UniqueAfterIsSubsequence(s[1..], seen);
        SubsequenceOfTail(UniqueAfter(s[1..], seen), s);
      } else {
        UniqueAfterIsSubsequence(s[1..], seen + {s[0]});
        var r := [s[0]] + UniqueAfter(s[1..], seen + {s[0]});
        assert r[1..] == UniqueAfter(s[1..], seen + {s[0]});
      }
    }
  }

  lemma SubsequenceOfTail(a: seq<string>, b: seq<string>)
    requires |b| > 0 && IsSubsequence(a, b[1..])
    ensures IsSubsequence(a, b)
  {
  }

  /** Appending one element to the input appends it to the output iff it is new. */
  lemma {:induction false} UniqueAfterSnoc(s: seq<string>, x: string, seen: set<string>)
    ensures UniqueAfter(s + [x], seen)
         == UniqueAfter(s, seen) + (if x in seen || x in s then [] else [x])
    decreases |s|
  {
    if |s| == 0 {
      assert UniqueAfter([x], seen) == (if x in seen then [] else [x] + UniqueAfter([], seen + {x}));
    } else {
      assert (s + [x])[0] == s[0];
      assert (s + [x])[1..] == s[1..] + [x];
      if s[0] in seen {
        UniqueAfterSnoc(s[1..], x, seen);
      } else {
        UniqueAfterSnoc(s[1..], x, seen + {s[0]});
      }
      assert x in s <==> x == s[0] || x in s[1..];
    }
  }

  /** array_unique keeps exactly the first occurrence of every element, in input order. */
  lemma {:induction false} UniqueIsFirstOccurrences(s: seq<string>)
    ensures Unique(s) == FirstOccurrences(s)
    decreases |s|
  {
    if |s| > 0 {
      var init := s[..|s| - 1];
      UniqueIsFirstOccurrences(init);
      UniqueAfterSnoc(init, s[|s| - 1], {});
      assert init + [s[|s| - 1]] == s;
    }
  }

  /** array_unique: no repeats, every input element survives, and the order is kept. */
  lemma UniqueProperties(s: seq<string>)
    ensures NoRepeats(Unique(s))
    ensures forall x :: x in Unique(s) <==> x in s
    ensures IsSubsequence(Unique(s), s)
  {
    UniqueAfterNoRepeats(s, {});
    UniqueAfterMembers(s, {});
    UniqueAfterIsSubsequence(s, {});
  }

  /** The PHP array [0 => s[0], 1 => s[1], ...] that explode returns. */
  function Indexed(s: seq<string>): (m: map<nat, string>)
    ensures forall i: nat :: i in m <==> i < |s|
    ensures forall i: nat :: i < |s| ==> m[i] == s[i]
  {
    map i: nat | i < |s| :: s[i]
  }

  /** array_values on an array whose integer keys lie in [lo, hi): its values in ascending key order. */
  function ValuesInKeyOrder(m: map<nat, string>, lo: nat, hi: nat): seq<string>
    decreases hi - lo
  {
    if lo >= hi then []
    else (if lo in m then [m[lo]] else []) + ValuesInKeyOrder(m, lo + 1, hi)
  }

  /** After unsetting keys below lo, the values from lo on are the untouched suffix. */
  lemma {:induction false} ValuesOfSuffix(s: seq<string>, gone: set<nat>, lo: nat)
    requires lo <= |s|
    requires forall k :: k in gone ==> k < lo
    ensures ValuesInKeyOrder(Indexed(s) - gone, lo, |s|) == s[lo..]
    decreases |s| - lo
  {
    if lo < |s| {
      ValuesOfSuffix(s, gone, lo + 1);
      assert lo in Indexed(s) - gone;
      assert s[lo..] == [s[lo]] + s[lo + 1..];
    }
  }
}
