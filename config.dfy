/**
  The line filter of loadConfigCIDRs: the contents of a config file are
  split at every newline, each line is trimmed of surrounding white space,
  and the lines that are empty or start with `#` are dropped; the others
  are the CIDR strings, in file order.
*/
module Config {

  /** Go's strings.Split(s, "\n"): the pieces between newlines, at least one. */
  function Split(s: string): (lines: seq<string>)
    ensures |lines| >= 1
    ensures forall i :: 0 <= i < |lines| ==> '\n' !in lines[i]
  {
    if s == [] then [""]
    else
      var rest := Split(s[1..]);
      if s[0] == '\n' then [""] + rest
      else [[s[0]] + rest[0]] + rest[1..]
  }

  /** Go's strings.Join(lines, "\n"). */
  function Join(lines: seq<string>): (r: string)
    requires |lines| >= 1
  {
    if |lines| == 1 then lines[0] else lines[0] + "\n" + Join(lines[1..])
  }

  /** Joining the pieces of a split gives the text back. */
  lemma {:induction false} JoinSplit(s: string)
    ensures Join(Split(s)) == s
  {
    if s != [] {
      var rest := Split(s[1..]);
      JoinSplit(s[1..]);
      if s[0] == '\n' {
        assert Split(s)[1..] == rest;
      } else {
        var lines := Split(s);
        assert lines[1..] == rest[1..];
        if |rest| > 1 {
          assert rest[1..] == rest[1..];
          assert Join(rest) == rest[0] + "\n" + Join(rest[1..]);
        }
      }
    }
  }

  /** Splitting the join of newline-free pieces gives the pieces back. */
  lemma {:induction false} SplitJoin(lines: seq<string>)
    requires |lines| >= 1
    requires forall i :: 0 <= i < |lines| ==> '\n' !in lines[i]
    ensures Split(Join(lines)) == lines
  {
    if |lines| == 1 {
      SplitLine(lines[0]);
    } else {
      SplitJoin(lines[1..]);
      SplitPrefix(lines[0], Join(lines[1..]));
      assert [lines[0]] + lines[1..] == lines;
    }
  }

  /** A newline-free text splits into itself. */
  lemma {:induction false} SplitLine(s: string)
    requires '\n' !in s
    ensures Split(s) == [s]
  {
    if s != [] {
      assert '\n' !in s[1..] by { assert forall k :: 0 <= k < |s[1..]| ==> s[1..][k] == s[k + 1]; }
      SplitLine(s[1..]);
      assert [s[0]] + s[1..] == s;
    }
  }

  /** A newline-free line followed by a newline and `t` splits into that line and the pieces of `t`. */
  lemma {:induction false} SplitPrefix(a: string, t: string)
    requires '\n' !in a
    ensures Split(a + "\n" + t) == [a] + Split(t)
  {
    if a == [] {
      assert a + "\n" + t == "\n" + t;
      assert ("\n" + t)[1..] == t;
    } else {
      var a' := a[1..];
      assert '\n' !in a' by { assert forall k :: 0 <= k < |a'| ==> a'[k] == a[k + 1]; }
      SplitPrefix(a', t);
      assert (a + "\n" + t)[1..] == a' + "\n" + t;
      assert [a[0]] + a' == a;
    }
  }

  /**
    Go's unicode.IsSpace, which strings.TrimSpace uses: the ASCII white
    space, U+0085 and U+00A0, and the other code points of Unicode's
    White_Space property.
  */
  predicate IsSpace(c: char)
  {
    c == ' ' || c == '\t' || c == '\n' || c == '\U{000B}' || c == '\U{000C}' || c == '\r'
    || c == '\U{0085}' || c == '\U{00A0}' || c == '\U{1680}'
    || ('\U{2000}' <= c <= '\U{200A}')
    || c == '\U{2028}' || c == '\U{2029}' || c == '\U{202F}' || c == '\U{205F}' || c == '\U{3000}'
  }

  /** The text with its leading white space removed. */
  function TrimLeft(s: string): (t: string)
    ensures |t| <= |s| && t == s[|s| - |t|..]
    ensures t == [] || !IsSpace(t[0])
    ensures forall i :: 0 <= i < |s| - |t| ==> IsSpace(s[i])
  {
    if s != [] && IsSpace(s[0]) then TrimLeft(s[1..]) else s
  }

  /** The text with its trailing white space removed. */
  function TrimRight(s: string): (t: string)
    ensures |t| <= |s| && t == s[..|t|]
    ensures t == [] || !IsSpace(t[|t| - 1])
    ensures forall i :: |t| <= i < |s| ==> IsSpace(s[i])
  {
    if s != [] && IsSpace(s[|s| - 1]) then TrimRight(s[..|s| - 1]) else s
  }

  /**
    Go's strings.TrimSpace: the text without the white space at both ends;
    what is left starts and ends with a character that is not white space.
  */
  function TrimSpace(s: string): (t: string)
    ensures |t| <= |s|
    ensures t == [] || (!IsSpace(t[0]) && !IsSpace(t[|t| - 1]))
  {
    TrimRight(TrimLeft(s))
  }

  /**
    TrimSpace removes only white space: the trimmed text is the slice of
    the text starting at some `k`, with white space before it and after it.
  */
  lemma TrimSpaceSlice(s: string)
    ensures exists k :: (0 <= k <= |s| - |TrimSpace(s)| && s[k..][..|TrimSpace(s)|] == TrimSpace(s)
                         && (forall i :: 0 <= i < k ==> IsSpace(s[i]))
                         && (forall i :: k + |TrimSpace(s)| <= i < |s| ==> IsSpace(s[i])))
  {
    var l := TrimLeft(s);
    var t := TrimRight(l);
    assert t == TrimSpace(s);
    var k := |s| - |l|;
    assert s[k..] == l;
    assert s[k..][..|t|] == t;
    assert forall i :: 0 <= i < k ==> IsSpace(s[i]);
    forall i | k + |t| <= i < |s|
      ensures IsSpace(s[i])
    {
      assert s[i] == l[i - k];
    }
  }

  /** Trimming twice is trimming once: the CIDR strings kept are already trimmed. */
  lemma TrimSpaceIdempotent(s: string)
    ensures TrimSpace(TrimSpace(s)) == TrimSpace(s)
  {
    var t := TrimSpace(s);
    if t != [] {
      assert TrimLeft(t) == t;
      assert TrimRight(t) == t;
    }
  }

  /** A trimmed line that names a CIDR: neither empty nor a `#` comment. */
  predicate IsEntry(t: string)
  {
    t != [] && t[0] != '#'
  }

  /** What one line contributes: its trimmed form if that is an entry, nothing otherwise. */
  function Keep(line: string): (kept: seq<string>)
    ensures |kept| <= 1
    ensures kept != [] <==> IsEntry(TrimSpace(line))
    ensures kept != [] ==> kept[0] == TrimSpace(line)
  {
    var t := TrimSpace(line);
    if IsEntry(t) then [t] else []
  }

  /** The CIDR strings of a sequence of lines, in order. */
  function FilterConfig(lines: seq<string>): (r: seq<string>)
  {
    if lines == [] then [] else Keep(lines[0]) + FilterConfig(lines[1..])
  }

  /** The CIDR strings of a config file's contents. */
  function ConfigCIDRs(data: string): (r: seq<string>)
  {
    FilterConfig(Split(data))
  }

  /** The split of loadConfigCIDRs, then its loop. */
  method ParseConfig(data: string) returns (cidrs: seq<string>)
    ensures cidrs == ConfigCIDRs(data)
  {
    var lines := Split(data);
    cidrs := FilterLines(lines);
  }

  /** The loop of loadConfigCIDRs: trim each line, skip blanks and comments, append the rest. */
  method FilterLines(lines: seq<string>) returns (cidrs: seq<string>)
    ensures cidrs == FilterConfig(lines)
  {
    cidrs := [];
    assert cidrs + FilterConfig(lines[0..]) == FilterConfig(lines) by {
      assert lines[0..] == lines;
    }
    for i := 0 to |lines|
      invariant cidrs + FilterConfig(lines[i..]) == FilterConfig(lines)
    {
      var line := TrimSpace(lines[i]);
      if line == [] || line[0] == '#' {
        ScanSkip(cidrs, lines, i);
        continue;
      }
      ScanKeep(cidrs, lines, i);
      cidrs := cidrs + [line];
    }
    assert FilterConfig(lines[|lines|..]) == [] by {
      assert lines[|lines|..] == [];
    }
    assert cidrs + [] == cidrs;
  }

  /** One turn of the loop: the kept part grows by what line `i` contributes. */
  lemma ScanStep(done: seq<string>, lines: seq<string>, i: int)
    requires 0 <= i < |lines| && done + FilterConfig(lines[i..]) == FilterConfig(lines)
    ensures (done + Keep(lines[i])) + FilterConfig(lines[i + 1..]) == FilterConfig(lines)
  {
    assert lines[i..][1..] == lines[i + 1..];
    var k, r := Keep(lines[i]), FilterConfig(lines[i + 1..]);
    assert FilterConfig(lines[i..]) == k + r;
    assert done + (k + r) == (done + k) + r;
  }

  /** A blank or comment line leaves the kept part as it is. */
  lemma ScanSkip(done: seq<string>, lines: seq<string>, i: int)
    requires 0 <= i < |lines| && done + FilterConfig(lines[i..]) == FilterConfig(lines)
    requires !IsEntry(TrimSpace(lines[i]))
    ensures done + FilterConfig(lines[i + 1..]) == FilterConfig(lines)
  {
    ScanStep(done, lines, i);
    assert done + Keep(lines[i]) == done;
  }

  /** An entry line is appended, trimmed, to the kept part. */
  lemma ScanKeep(done: seq<string>, lines: seq<string>, i: int)
    requires 0 <= i < |lines| && done + FilterConfig(lines[i..]) == FilterConfig(lines)
    requires IsEntry(TrimSpace(lines[i]))
    ensures (done + [TrimSpace(lines[i])]) + FilterConfig(lines[i + 1..]) == FilterConfig(lines)
  {
    ScanStep(done, lines, i);
  }

  /** The filter works line by line: filtering two blocks of lines concatenates their results. */
  lemma {:induction false} FilterConcat(a: seq<string>, b: seq<string>)
    ensures FilterConfig(a + b) == FilterConfig(a) + FilterConfig(b)
  {
    if a == [] {
      assert a + b == b;
    } else {
      assert (a + b)[1..] == a[1..] + b;
      FilterConcat(a[1..], b);
    }
  }

  /** Every kept string is the trimmed form of some line, and an entry. */
  lemma {:induction false} FilterSound(lines: seq<string>)
    ensures forall c :: c in FilterConfig(lines) ==>
      IsEntry(c) && exists j :: 0 <= j < |lines| && c == TrimSpace(lines[j])
  {
    if lines != [] {
      var rest := lines[1..];
      FilterSound(rest);
      forall c | c in FilterConfig(lines)
        ensures IsEntry(c) && exists j :: 0 <= j < |lines| && c == TrimSpace(lines[j])
      {
        if c in FilterConfig(rest) {
          var j :| 0 <= j < |rest| && c == TrimSpace(rest[j]);
          assert lines[j + 1] == rest[j];
        } else {
          assert c in Keep(lines[0]);
          assert c == TrimSpace(lines[0]);
        }
      }
    }
  }

  /** Every line whose trimmed form is an entry is kept. */
  lemma {:induction false} FilterComplete(lines: seq<string>, j: int)
    requires 0 <= j < |lines| && IsEntry(TrimSpace(lines[j]))
    ensures TrimSpace(lines[j]) in FilterConfig(lines)
  {
    var k, r := Keep(lines[0]), FilterConfig(lines[1..]);
    assert FilterConfig(lines) == k + r;
    if j > 0 {
      assert lines[1..][j - 1] == lines[j];
      FilterComplete(lines[1..], j - 1);
      assert TrimSpace(lines[j]) in r;
    } else {
      assert k == [TrimSpace(lines[0])];
    }
  }

  /** A file of comments and blank lines yields no CIDR at all. */
  lemma {:induction false} FilterNone(lines: seq<string>)
    requires forall j :: 0 <= j < |lines| ==> !IsEntry(TrimSpace(lines[j]))
    ensures FilterConfig(lines) == []
  {
    if lines != [] {
      FilterNone(lines[1..]);
    }
  }

  /** Config entries keep the order of their lines: an entry line, then the entries after it. */
  lemma FilterOrder(a: seq<string>, line: string, b: seq<string>)
    requires IsEntry(TrimSpace(line))
    ensures FilterConfig(a + [line] + b) == FilterConfig(a) + [TrimSpace(line)] + FilterConfig(b)
  {
    var t := TrimSpace(line);
    FilterConcat(a + [line], b);
    FilterConcat(a, [line]);
    assert FilterConfig([line]) == [t] by {
      assert [line][1..] == [];
      assert Keep(line) == [t];
    }
  }
}
