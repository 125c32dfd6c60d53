/**
 * The already-deleted list: a file with one archive name per line. Its contents are split
 * at every newline and each non-empty line goes into the set of names known to be gone.
 * Reading the file is not part of this model; the contents are the input.
 */
module DeletedList {
  import opened Text

  /** `strings.Split(s, "\n")`: the pieces between newlines; n newlines give n + 1 pieces. */
  function Split(s: string): seq<string>
  {
    if s == [] then [""]
    else
      var rest := Split(s[1..]);
      if s[0] == '\n' then [""] + rest
      else [[s[0]] + rest[0]] + rest[1..]
  }

  /** n newlines give n + 1 pieces, none of which holds a newline. */
  lemma {:induction false} SplitPieces(s: string)
    ensures |Split(s)| == Count(s, '\n') + 1
    ensures forall i :: 0 <= i < |Split(s)| ==> '\n' !in Split(s)[i]
  {
    if s != [] {
      SplitPieces(s[1..]);
      var rest := Split(s[1..]);
      if s[0] != '\n' {
        assert '\n' !in [s[0]] + rest[0];
        var r := Split(s);
        forall i | 1 <= i < |r| ensures '\n' !in r[i] {
          assert r[i] == rest[i];
        }
      }
    }
  }

  /** `strings.Join(lines, "\n")`. */
  function Join(lines: seq<string>): string
    requires |lines| >= 1
  {
    if |lines| == 1 then lines[0] else lines[0] + "\n" + Join(lines[1..])
  }

  /** Joining the pieces gives back the text. */
  lemma {:induction false} JoinSplit(s: string)
    ensures |Split(s)| >= 1 && Join(Split(s)) == s
  {
    if s != [] {
      JoinSplit(s[1..]);
      var rest := Split(s[1..]);
      if s[0] != '\n' {
        var r := Split(s);
        assert r[1..] == rest[1..];
        if |rest| > 1 {
          assert rest == [rest[0]] + rest[1..];
        }
      }
    }
  }

  /** Text without a newline glues onto the first piece of whatever follows it. */
  lemma {:induction false} SplitAppend(a: string, t: string)
    requires '\n' !in a
    ensures Split(a + t) == [a + Split(t)[0]] + Split(t)[1..]
  {
    if a != [] {
      assert '\n' !in a[1..] by {
        assert forall c :: c in a[1..] ==> c in a;
      }
      SplitAppend(a[1..], t);
      var st := Split(t);
      assert (a + t)[1..] == a[1..] + t;
      var rest := Split(a[1..] + t);
      assert rest == [a[1..] + st[0]] + st[1..];
      assert Split(a + t) == [[a[0]] + rest[0]] + rest[1..];
      assert [a[0]] + (a[1..] + st[0]) == a + st[0];
    } else {
      var st := Split(t);
      assert a + t == t && a + st[0] == st[0];
      assert [st[0]] + st[1..] == st;
    }
  }

  /** Splitting the joined text gives back lines that hold no newline. */
  lemma {:induction false} SplitJoin(lines: seq<string>)
    requires |lines| >= 1 && forall i :: 0 <= i < |lines| ==> '\n' !in lines[i]
    ensures Split(Join(lines)) == lines
  {
    var line := lines[0];
    if |lines| == 1 {
      SplitAppend(line, "");
      assert line + "" == line;
    } else {
      var rest := Join(lines[1..]);
      SplitJoin(lines[1..]);
      SplitAppend(line, "\n" + rest);
      assert ("\n" + rest)[1..] == rest;
      assert Split("\n" + rest) == [""] + Split(rest);
      assert Join(lines) == line + ("\n" + rest);
      assert line + "" == line;
      assert lines == [line] + lines[1..];
    }
  }

  /** The names the list holds: every non-empty line. */
  function Names(data: string): set<string>
  {
    set l | l in Split(data) && l != ""
  }

  /** The loop of `main` that fills the already-deleted map. */
  method LoadAlreadyDeleted(data: string) returns (alreadyDeleted: set<string>)
    ensures alreadyDeleted == Names(data)
    ensures forall name :: name in alreadyDeleted ==> name != "" && '\n' !in name
  {
    var lines := Split(data);
    SplitPieces(data);
    alreadyDeleted := {};
    for i := 0 to |lines|
      invariant alreadyDeleted == set k | 0 <= k < i && lines[k] != "" :: lines[k]
    {
      if lines[i] != "" {
        alreadyDeleted := alreadyDeleted + {lines[i]};
      }
    }
    assert forall l :: l in lines ==> exists k :: 0 <= k < |lines| && lines[k] == l;
  }
}
