/** Concrete scenarios of the store: inputs for which the behaviour of the
    code is worth seeing on actual values. */
module Scenarios {
  import opened Results
  import opened Text
  import Registry
  import opened Catalog

  /** Two different records sharing a key: title "a1" of 2000 and title "a"
      of 12000, same genre and director. */
  lemma KeyCollision()
    ensures KeyOf(Movie(1, "a1", 2000, "g", 1)) == KeyOf(Movie(2, "a", 12000, "g", 1))
  {
    ExampleNumbers();
    assert IntToStr(12000) == "12000" by {
      assert NatToStr(1) == "1";
      assert NatToStr(12) == "12";
      assert NatToStr(120) == "120";
      assert NatToStr(1200) == "1200";
    }
    assert Lower("a1") == "a1";
    assert Lower("a") == "a";
    assert Lower("g") == "g";
    assert "a1" + "2000" == "a" + "12000";
  }

  lemma NameEF()
    ensures Normalize("e, f") == "e, f"
    ensures SplitName("e, f") == Some(("e", "f"))
    ensures Lower("e, f") == "e, f"
  {
    NormalizedEF();
    NormalizeFixedPoints("e, f");
    SplitEF();
    LowerWord("e, f");
  }

  lemma NormalizedEF()
    ensures Normalized("e, f")
  {
    var s := "e, f";
    assert s[0] == 'e' && s[1] == ',' && s[2] == ' ' && s[3] == 'f';
    assert !IsSpace('e') && !IsSpace(',') && !IsSpace('f');
  }

  lemma SplitEF()
    ensures SplitName("e, f") == Some(("e", "f"))
  {
    assert !ContainsSep("e");
    SplitNameInverts("e", "f");
    assert "e" + ", " + "f" == "e, f";
  }

  /** A string without capital letters is its own lower-case form. */
  lemma LowerWord(s: string)
    requires forall i :: 0 <= i < |s| ==> !('A' <= s[i] <= 'Z')
    ensures Lower(s) == s
  {
  }

  lemma ExampleDirectors(ds: seq<Registry.Director>)
    requires ds == [Registry.Director(1, "b", "a"), Registry.Director(10, "d", "c")]
    ensures Registry.AddDirector(ds, "e, f") == Ok(Registry.Resolution(ds + [Registry.Director(11, "f", "e")], 11))
  {
    NameEF();
    NoKeyEF(ds);
    Registry.NewDirector(ds, "e, f", "e", "f");
  }

  lemma NoKeyEF(ds: seq<Registry.Director>)
    requires ds == [Registry.Director(1, "b", "a"), Registry.Director(10, "d", "c")]
    ensures !Registry.HasKey(ds, "e, f")
  {
    forall i | 0 <= i < |ds|
      ensures Registry.Key(ds[i]) != "e, f"
    {
      var d := Registry.Display(ds[i]);
      assert d[0] == ds[i].lastName[0] != 'e';
      assert Registry.Key(ds[i])[0] == LowerChar(d[0]);
    }
  }

  lemma ExampleKey()
    ensures DupKey(Strip("t"), 2000, Strip("g"), 11) == KeyOf(Movie(1, "t", 2000, "g1", 1))
  {
    StripLetter('t');
    StripLetter('g');
    ExampleNumbers();
    LowerWord("t");
    LowerWord("g");
    LowerWord("g1");
  }

  lemma StripLetter(c: char)
    requires 'a' <= c <= 'z'
    ensures Strip([c]) == [c]
  {
    assert LeadingSpaces([c]) == 0;
  }

  lemma ExampleNumbers()
    ensures IntToStr(2000) == "2000" && IntToStr(11) == "11" && IntToStr(1) == "1"
  {
    assert NatToStr(2000) == "2000" by {
      assert NatToStr(2) == "2";
      assert NatToStr(20) == "20";
      assert NatToStr(200) == "200";
    }
    assert NatToStr(11) == "11" by {
      assert NatToStr(1) == "1";
    }
  }

  /** The refusal above happens: the new director "e, f" receives id 11,
      and title "t", year 2000, genre "g" with director 11 has the key of
      the stored movie with genre "g1" and director 1. */
  lemma RefusedMovieKeepsNewDirectorExample(s: Store)
    requires s == Store([Movie(1, "t", 2000, "g1", 1)],
                        [Registry.Director(1, "b", "a"), Registry.Director(10, "d", "c")])
    ensures AddMovie(s, "t", 2000, "g", "e, f")
            == Step(s.(directors := s.directors + [Registry.Director(11, "f", "e")]), Err(MovieDbError))
  {
    ExampleDirectors(s.directors);
    ExampleKey();
    assert KeyOf(s.movies[0]) == DupKey(Strip("t"), 2000, Strip("g"), 11);
    RefusedWithNewDirector(s, "t", 2000, "g", "e, f",
                           Registry.Resolution(s.directors + [Registry.Director(11, "f", "e")], 11));
  }

  lemma SplitLost()
    ensures Split("a, ,b") == ["a,", ",b"]
  {
    assert "a,"[1..] == ",";
    assert Word(",") == ",";
    assert Word("a,") == "a,";
    assert ",b"[1..] == "b";
    assert Word("b") == "b";
    assert Word(",b") == ",b";
    assert "a,"[2..] == "";
    assert Split("a,") == ["a,"];
    assert ",b"[2..] == "";
    assert Split(",b") == [",b"];
    SplitAroundSpace("a,", ' ', ",b");
    assert "a, ,b" == "a," + [' '] + ",b";
  }

  /** A tab and a blank between the comma and the given name collapse to
      one blank, so the separator survives normalisation. */
  lemma GapCollapsed()
    ensures Normalize("e,\t f") == "e, f"
    ensures SplitName(Normalize("e,\t f")) == Some(("e", "f"))
  {
    assert Word("e,") == "e," && "e,"[2..] == "";
    assert Split("e,") == ["e,"];
    assert " f"[1..] == "f" && Word("f") == "f" && "f"[1..] == "";
    assert Split(" f") == ["f"];
    SplitAroundSpace("e,", '\t', " f");
    assert "e,\t f" == "e," + ['\t'] + " f";
    NormalizeKeepsWords("e,\t f");
    JoinCons(" ", "e,", ["f"]);
    assert Join(" ", ["e,", "f"]) == "e, f";
    SplitEF();
  }

  /** A blank before the comma is removed while the blank after it stays,
      so "e , f" resolves like "e, f". */
  lemma CommaWordGlued()
    ensures Normalize("e , f") == "e, f"
    ensures SplitName(Normalize("e , f")) == Some(("e", "f"))
  {
    SplitECF();
    NormalizeIsGlue("e , f");
    GlueECF();
    SplitEF();
  }

  lemma SplitECF()
    ensures Split("e , f") == ["e", ",", "f"]
  {
    SplitOfToken("e");
    SplitOfToken(",");
    SplitOfToken("f");
    SplitAroundSpace(",", ' ', "f");
    assert ", f" == "," + [' '] + "f";
    SplitAroundSpace("e", ' ', ", f");
    assert "e , f" == "e" + [' '] + ", f";
  }

  lemma GlueECF()
    ensures Glue(["e", ",", "f"]) == "e, f"
  {
    assert ["e", ",", "f"][1..] == [",", "f"];
    assert [",", "f"][1..] == ["f"];
  }

  lemma DropLost()
    ensures DropBlankBeforeComma("a, ,b") == "a,,b"
  {
    assert "a, ,b"[1..] == ", ,b";
    assert ", ,b"[1..] == " ,b";
    assert " ,b"[2..] == "b";
    assert DropBlankBeforeComma("b") == "b";
    assert DropBlankBeforeComma(" ,b") == ",b";
  }

  /** The director "a, ,b" contains the separator as given but not once
      normalised. */
  lemma LostSeparator()
    ensures ContainsSep("a, ,b")
    ensures Normalize("a, ,b") == "a,,b"
    ensures !ContainsSep("a,,b")
  {
    assert SepAt("a, ,b", 1);
    SplitLost();
    JoinCons(" ", "a,", [",b"]);
    assert Join(" ", ["a,", ",b"]) == "a, ,b";
    DropLost();
  }

  /** The separator check looks at the name as given, the split at the
      normalised name: a director written "a, ,b" passes the check, loses
      its separator to normalisation ("a,,b"), and the import stops with the
      uncaught `ValueError`. */
  lemma AddMoviesStopsOnLostSeparator(s: Store, r: Record)
    requires r == map["title" := StrValue("t"), "year" := IntValue(2000),
                      "genre" := StrValue("g"), "director" := StrValue("a, ,b")]
    ensures WellFormed(r)
    ensures AddMovies(s, [r]).result == Err(UnpackError)
    ensures AddMovies(s, [r]).store == s
  {
    assert r.Keys == Fields;
    LostSeparator();
    AddMoviesSingle(s, r);
  }
}
