/**
 The guard that keeps a file button from being made for a name which a shell
 launcher could misread as more than one command.
 */
module Filenames {
  import opened Strings

  /** The substrings a file name may not contain. */
  const Disallowed: seq<string> := [";", "&&", "||", "\n"]

  /** True when `filename` contains none of the disallowed substrings (Python's `any(s in filename ...)`). */
  function FilenameOk(filename: string): (ok: bool)
    ensures ok <==> !(exists i :: OccursAt(filename, ";", i))
                    && !(exists i :: OccursAt(filename, "&&", i))
                    && !(exists i :: OccursAt(filename, "||", i))
                    && !(exists i :: OccursAt(filename, "\n", i))
  {
    !(Contains(filename, Disallowed[0]) || Contains(filename, Disallowed[1])
      || Contains(filename, Disallowed[2]) || Contains(filename, Disallowed[3]))
  }

  /** The character at `i` does not start a disallowed substring. */
  predicate SafeAt(f: string, i: int)
    requires 0 <= i < |f|
  {
    && f[i] != ';'
    && f[i] != '\n'
    && !(i + 1 < |f| && f[i] == f[i + 1] && (f[i] == '&' || f[i] == '|'))
  }

  lemma OccursOne(f: string, c: char, i: int)
    ensures OccursAt(f, [c], i) <==> 0 <= i < |f| && f[i] == c
  {
    if 0 <= i < |f| {
      assert f[i..i + 1] == [f[i]];
    }
  }

  lemma OccursTwo(f: string, c: char, i: int)
    ensures OccursAt(f, [c, c], i) <==> 0 <= i && i + 1 < |f| && f[i] == c && f[i + 1] == c
  {
    if 0 <= i && i + 1 < |f| {
      assert f[i..i + 2] == [f[i], f[i + 1]];
    }
  }

  /** The same guard read one character at a time: no `;`, no newline, no doubled `&` or `|`. */
  lemma FilenameOkCharwise(f: string)
    ensures FilenameOk(f) <==> forall i :: 0 <= i < |f| ==> SafeAt(f, i)
  {
    forall i
      ensures OccursAt(f, ";", i) <==> 0 <= i < |f| && f[i] == ';'
      ensures OccursAt(f, "\n", i) <==> 0 <= i < |f| && f[i] == '\n'
      ensures OccursAt(f, "&&", i) <==> 0 <= i && i + 1 < |f| && f[i] == '&' && f[i + 1] == '&'
      ensures OccursAt(f, "||", i) <==> 0 <= i && i + 1 < |f| && f[i] == '|' && f[i + 1] == '|'
    {
      OccursOne(f, ';', i);
      OccursOne(f, '\n', i);
      OccursTwo(f, '&', i);
      OccursTwo(f, '|', i);
    }
    if FilenameOk(f) {
      forall i | 0 <= i < |f|
        ensures SafeAt(f, i)
      {
        assert !OccursAt(f, ";", i) && !OccursAt(f, "\n", i);
        assert !OccursAt(f, "&&", i) && !OccursAt(f, "||", i);
      }
    }
    if forall i :: 0 <= i < |f| ==> SafeAt(f, i) {
      forall i
        ensures !OccursAt(f, ";", i) && !OccursAt(f, "\n", i)
        ensures !OccursAt(f, "&&", i) && !OccursAt(f, "||", i)
      {
        if 0 <= i < |f| {
          assert SafeAt(f, i);
        }
      }
    }
  }

  /** An accepted name has no newline, so it is a single line of text. */
  lemma FilenameOkSingleLine(f: string)
    requires FilenameOk(f)
    ensures '\n' !in f
  {
    FilenameOkCharwise(f);
    assert forall i :: 0 <= i < |f| ==> f[i] != '\n' by {
      forall i | 0 <= i < |f|
        ensures f[i] != '\n'
      {
        assert SafeAt(f, i);
      }
    }
  }

  /** A name with no `;`, newline, `&` or `|` at all passes the guard. */
  lemma NoMetaCharsOk(f: string)
    requires ';' !in f && '\n' !in f && '&' !in f && '|' !in f
    ensures FilenameOk(f)
  {
    FilenameOkCharwise(f);
    assert forall i :: 0 <= i < |f| ==> SafeAt(f, i) by {
      forall i | 0 <= i < |f|
        ensures SafeAt(f, i)
      {
        assert f[i] in f;
      }
    }
  }

  /** The accepted names asserted in the startup test. */
  lemma FilenameOkAccepts(f: string)
    requires f == "abc" || f == "abc/def" || f == "abc/def.py"
    ensures FilenameOk(f)
  {
    NoMetaCharsOk(f);
  }

  /** The rejected names asserted in the startup test. */
  lemma FilenameOkRejects()
    ensures !FilenameOk("abc/def\n.py") && !FilenameOk("\nabc/def.py") && !FilenameOk("abc/def.py\n")
    ensures !FilenameOk("abc||.py") && !FilenameOk("abc&&.py") && !FilenameOk("abc ; .py")
  {
    assert OccursAt("abc/def\n.py", "\n", 7);
    assert OccursAt("\nabc/def.py", "\n", 0);
    assert OccursAt("abc/def.py\n", "\n", 10);
    assert OccursAt("abc||.py", "||", 3);
    assert OccursAt("abc&&.py", "&&", 3);
    assert OccursAt("abc ; .py", ";", 4);
  }
}
