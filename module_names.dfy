/** The name under which a registered migration file is imported:
    the file name cut at its first ".py" (Python's `file.split('.py')[0]`). */
module ModuleNames {

  const Ext: string := ".py"

  /** ".py" starts at position `i` of `s`. */
  predicate ExtAt(s: string, i: int)
  {
    0 <= i && i + 3 <= |s| && s[i] == Ext[0] && s[i + 1] == Ext[1] && s[i + 2] == Ext[2]
  }

  /** ".py" occurs nowhere in `s`. */
  predicate NoExt(s: string)
  {
    forall i :: 0 <= i < |s| ==> !ExtAt(s, i)
  }

  /** `file.split('.py')[0]`: `file` up to its first ".py", all of it when
      ".py" does not occur. */
  function ModuleName(file: string): string
  {
    if |file| < |Ext| then file
    else if ExtAt(file, 0) then []
    else [file[0]] + ModuleName(file[1..])
  }

  /** The module name is the file name up to its first ".py": a prefix in
      which no ".py" of the file name starts, followed by ".py" unless it is
      the whole name. */
  lemma {:induction false} ModuleNameIsFirstCut(file: string)
    ensures |ModuleName(file)| <= |file| && ModuleName(file) == file[..|ModuleName(file)|]
    ensures forall i :: 0 <= i < |ModuleName(file)| ==> !ExtAt(file, i)
    ensures |ModuleName(file)| < |file| ==> ExtAt(file, |ModuleName(file)|)
  {
    if |file| >= |Ext| && !ExtAt(file, 0) {
      var rest := file[1..];
      ModuleNameIsFirstCut(rest);
      forall i | 0 <= i < |ModuleName(rest)| + 1 ensures !ExtAt(file, i) {
        if i > 0 {
          assert !ExtAt(rest, i - 1);
        }
      }
    }
  }

  /** The cut leaves the name whole exactly when it does not contain ".py". */
  lemma {:induction false} ModuleNameWhole(file: string)
    ensures ModuleName(file) == file <==> NoExt(file)
  {
    ModuleNameIsFirstCut(file);
    var m := ModuleName(file);
    if m != file {
      assert ExtAt(file, |m|);
    }
  }

  /** A module name never contains ".py", so cutting again changes nothing. */
  lemma {:induction false} ModuleNameIdempotent(file: string)
    ensures NoExt(ModuleName(file))
    ensures ModuleName(ModuleName(file)) == ModuleName(file)
  {
    ModuleNameIsFirstCut(file);
    var m := ModuleName(file);
    forall i | 0 <= i < |m| ensures !ExtAt(m, i) {
      assert !ExtAt(file, i) && m[i] == file[i];
      if i + 2 < |m| {
        assert m[i + 1] == file[i + 1] && m[i + 2] == file[i + 2];
      }
    }
    ModuleNameWhole(m);
  }

  /** Round trip with the file naming convention: the file `m + ".py" + rest`
      is imported as module `m` whenever `m` does not itself contain ".py". */
  lemma {:induction false} ModuleNameOfSourceFile(m: string, rest: string)
    requires NoExt(m)
    ensures ModuleName(m + Ext + rest) == m
  {
    var file := m + Ext + rest;
    var n := ModuleName(file);
    ModuleNameIsFirstCut(file);
    assert ExtAt(file, |m|);
    // no ".py" starts inside `m`, not even one straddling its end, since file[|m|] == '.'
    forall i | 0 <= i < |m| ensures !ExtAt(file, i) {
      assert file[|m|] == '.';
      if i + 3 <= |m| {
        assert file[i] == m[i] && file[i + 1] == m[i + 1] && file[i + 2] == m[i + 2];
        assert !ExtAt(m, i);
      }
    }
    assert |n| == |m|;
    assert n == file[..|m|];
  }
}
