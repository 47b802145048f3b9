/** The two `java.lang.String` operations the registry relies on:
    `split("/")` (with Java's rule that trailing empty strings are dropped,
    while leading and inner ones are kept) and `trim().isEmpty()`. */
module JavaStrings {

  /** The pieces of `s` between '/' characters, empty pieces included:
      "a//b/" gives ["a", "", "b", ""]. */
  function SplitAll(s: string): (r: seq<string>)
    ensures |r| >= 1
  {
    if s == [] then [""]
    else
      var rest := SplitAll(s[1..]);
      if s[0] == '/' then [""] + rest
      else [[s[0]] + rest[0]] + rest[1..]
  }

  /** The pieces glued back together with '/'. */
  function Join(parts: seq<string>): string
    requires |parts| >= 1
  {
    if |parts| == 1 then parts[0] else parts[0] + "/" + Join(parts[1..])
  }

  predicate NoSlash(parts: seq<string>) {
    forall i :: 0 <= i < |parts| ==> '/' !in parts[i]
  }

  predicate AllSlashes(s: string) {
    forall i :: 0 <= i < |s| ==> s[i] == '/'
  }

  predicate AllEmpty(parts: seq<string>) {
    forall i :: 0 <= i < |parts| ==> parts[i] == ""
  }

  /** `parts` without its trailing empty strings. */
  function DropTrailingEmpty(parts: seq<string>): (r: seq<string>)
    ensures r <= parts
    ensures r == [] || r[|r| - 1] != ""
    ensures forall i :: |r| <= i < |parts| ==> parts[i] == ""
  {
    if parts == [] then []
    else if parts[|parts| - 1] == "" then DropTrailingEmpty(parts[..|parts| - 1])
    else parts
  }

  /** Java `s.split("/")`: when '/' does not occur the result is `[s]`
      (so "" gives [""]); otherwise the pieces with trailing empty strings
      removed (so "/" gives [] and "/a" gives ["", "a"]). */
  function Split(s: string): seq<string>
  {
    if '/' !in s then [s] else DropTrailingEmpty(SplitAll(s))
  }

  /** Splitting then joining gives back the string. */
  lemma {:induction false} JoinSplitAll(s: string)
    ensures Join(SplitAll(s)) == s
  {
    if s != [] {
      JoinSplitAll(s[1..]);
      var rest := SplitAll(s[1..]);
      if s[0] == '/' {
        assert SplitAll(s)[1..] == rest;
        assert s == [s[0]] + s[1..];
      } else if |rest| == 1 {
        assert s == [s[0]] + s[1..];
      } else {
        var r := SplitAll(s);
        assert r[1..] == rest[1..];
        calc {
          Join(r);
          r[0] + "/" + Join(rest[1..]);
          [s[0]] + (rest[0] + "/" + Join(rest[1..]));
          [s[0]] + s[1..];
        }
        assert [s[0]] + s[1..] == s;
      }
    }
  }

  /** No piece produced by splitting contains the separator. */
  lemma {:induction false} SplitAllPieces(s: string)
    ensures NoSlash(SplitAll(s))
  {
    if s != [] {
      SplitAllPieces(s[1..]);
      var rest := SplitAll(s[1..]);
      var r := SplitAll(s);
      if s[0] != '/' {
        assert '/' !in rest[0];
        assert forall i :: 1 <= i < |r| ==> r[i] == rest[i];
      } else {
        assert forall i :: 1 <= i < |r| ==> r[i] == rest[i - 1];
      }
    }
  }

  /** Joining pieces that do not contain '/' and splitting again gives
      back the pieces. */
  lemma {:induction false} SplitAllJoin(parts: seq<string>)
    requires |parts| >= 1 && NoSlash(parts)
    ensures SplitAll(Join(parts)) == parts
  {
    if |parts| == 1 {
      SplitAllNoSlash(parts[0]);
    } else {
      assert NoSlash(parts[1..]) by {
        forall i | 0 <= i < |parts| - 1 ensures '/' !in parts[1..][i] {
          assert parts[1..][i] == parts[i + 1];
        }
      }
      SplitAllJoin(parts[1..]);
      SplitAllPrefix(parts[0], "/" + Join(parts[1..]));
      assert SplitAll("/" + Join(parts[1..])) == [""] + parts[1..] by {
        assert ("/" + Join(parts[1..]))[1..] == Join(parts[1..]);
      }
      assert parts[0] + ("/" + Join(parts[1..])) == parts[0] + "/" + Join(parts[1..]);
      assert parts[0] + "" == parts[0];
      assert [parts[0]] + parts[1..] == parts;
    }
  }

  lemma {:induction false} SplitAllNoSlash(s: string)
    requires '/' !in s
    ensures SplitAll(s) == [s]
  {
    if s != [] {
      assert '/' !in s[1..] by {
        forall i | 0 <= i < |s| - 1 ensures s[1..][i] != '/' { assert s[1..][i] == s[i + 1]; }
      }
      SplitAllNoSlash(s[1..]);
      assert [s[0]] + s[1..] == s;
    }
  }

  /** A piece without '/' in front of `t` fuses with the first piece of `t`. */
  lemma {:induction false} SplitAllPrefix(p: string, t: string)
    requires '/' !in p
    ensures SplitAll(p + t) == [p + SplitAll(t)[0]] + SplitAll(t)[1..]
  {
    if p != [] {
      assert (p + t)[1..] == p[1..] + t;
      assert '/' !in p[1..] by {
        forall i | 0 <= i < |p| - 1 ensures p[1..][i] != '/' { assert p[1..][i] == p[i + 1]; }
      }
      SplitAllPrefix(p[1..], t);
      assert [p[0]] + (p[1..] + SplitAll(t)[0]) == p + SplitAll(t)[0];
    } else {
      assert p + t == t;
      var r := SplitAll(t);
      assert p + r[0] == r[0];
      assert [r[0]] + r[1..] == r;
    }
  }

  /** Every piece is empty exactly when the string is only separators. */
  lemma {:induction false} SplitAllEmptyIff(s: string)
    ensures AllEmpty(SplitAll(s)) <==> AllSlashes(s)
  {
    if s != [] {
      SplitAllEmptyIff(s[1..]);
      var rest := SplitAll(s[1..]);
      var r := SplitAll(s);
      if s[0] == '/' {
        assert forall i :: 1 <= i < |r| ==> r[i] == rest[i - 1];
        assert AllEmpty(r) <==> AllEmpty(rest) by {
          if AllEmpty(rest) {
            forall i | 0 <= i < |r| ensures r[i] == "" { if i > 0 { assert r[i] == rest[i - 1]; } }
          }
          if AllEmpty(r) {
            forall i | 0 <= i < |rest| ensures rest[i] == "" { assert rest[i] == r[i + 1]; }
          }
        }
        assert AllSlashes(s) <==> AllSlashes(s[1..]) by {
          if AllSlashes(s[1..]) {
            forall i | 0 <= i < |s| ensures s[i] == '/' {
              if i > 0 { assert s[i] == s[1..][i - 1]; }
            }
          }
          if AllSlashes(s) {
            forall i | 0 <= i < |s| - 1 ensures s[1..][i] == '/' { assert s[1..][i] == s[i + 1]; }
          }
        }
      } else {
        assert r[0] != "";
      }
    }
  }

  /** `split` yields no segment at all exactly for a non-empty string made
      only of separators, such as "/" or "//". */
  lemma SplitEmptyIff(s: string)
    ensures Split(s) == [] <==> s != [] && AllSlashes(s)
  {
    SplitAllEmptyIff(s);
    if '/' !in s {
      assert s != [] ==> !AllSlashes(s) by {
        if s != [] { assert s[0] != '/'; }
      }
    } else {
      var all := SplitAll(s);
      var r := DropTrailingEmpty(all);
      if r == [] {
        assert AllEmpty(all);
      } else {
        assert r[|r| - 1] == all[|r| - 1];
        assert !AllEmpty(all);
      }
    }
  }

  /** `split` leaves no separator in a segment and drops exactly the
      trailing empty pieces. */
  lemma SplitPieces(s: string)
    ensures NoSlash(Split(s))
    ensures '/' in s ==> Split(s) <= SplitAll(s)
    ensures '/' in s ==> forall i :: |Split(s)| <= i < |SplitAll(s)| ==> SplitAll(s)[i] == ""
    ensures '/' in s && Split(s) != [] ==> Split(s)[|Split(s)| - 1] != ""
  {
    SplitAllPieces(s);
    if '/' in s {
      var r := Split(s);
      forall i | 0 <= i < |r| ensures '/' !in r[i] { assert r[i] == SplitAll(s)[i]; }
    }
  }

  /** Java `trim()`: remove leading and trailing characters not above U+0020. */
  function TrimStart(s: string): string {
    if s != [] && s[0] <= ' ' then TrimStart(s[1..]) else s
  }

  function TrimEnd(s: string): string {
    if s != [] && s[|s| - 1] <= ' ' then TrimEnd(s[..|s| - 1]) else s
  }

  function Trim(s: string): string {
    TrimEnd(TrimStart(s))
  }

  /** `segment.trim().isEmpty()`. */
  predicate IsBlank(s: string) {
    Trim(s) == []
  }

  predicate AllSpace(s: string) {
    forall i :: 0 <= i < |s| ==> s[i] <= ' '
  }

  /** A segment is blank exactly when each of its characters is at most
      U+0020. */
  lemma BlankIff(s: string)
    ensures IsBlank(s) <==> AllSpace(s)
  {
    TrimStartEmptyIff(s);
    var t := TrimStart(s);
    TrimEndEmptyIff(t);
    TrimStartShape(s);
  }

  lemma {:induction false} TrimStartEmptyIff(s: string)
    ensures TrimStart(s) == [] <==> AllSpace(s)
  {
    if s != [] && s[0] <= ' ' {
      TrimStartEmptyIff(s[1..]);
      assert AllSpace(s) <==> AllSpace(s[1..]) by {
        if AllSpace(s[1..]) {
          forall i | 0 <= i < |s| ensures s[i] <= ' ' { if i > 0 { assert s[i] == s[1..][i - 1]; } }
        }
        if AllSpace(s) {
          forall i | 0 <= i < |s| - 1 ensures s[1..][i] <= ' ' { assert s[1..][i] == s[i + 1]; }
        }
      }
    }
  }

  lemma {:induction false} TrimEndEmptyIff(s: string)
    ensures TrimEnd(s) == [] <==> AllSpace(s)
  {
    if s != [] && s[|s| - 1] <= ' ' {
      var u := s[..|s| - 1];
      TrimEndEmptyIff(u);
      assert AllSpace(s) <==> AllSpace(u) by {
        if AllSpace(u) {
          forall i | 0 <= i < |s| ensures s[i] <= ' ' { if i < |s| - 1 { assert s[i] == u[i]; } }
        }
        if AllSpace(s) {
          forall i | 0 <= i < |u| ensures u[i] <= ' ' { assert u[i] == s[i]; }
        }
      }
    }
  }

  lemma {:induction false} TrimStartShape(s: string)
    ensures TrimStart(s) == [] || TrimStart(s)[0] > ' '
  {
    if s != [] && s[0] <= ' ' {
      TrimStartShape(s[1..]);
    }
  }
}
