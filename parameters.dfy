// Parameters (Parameters.h, Parameters.cpp): the search parameters, kept in
// three maps keyed by the parameter's name: integer values, string values
// and help texts. Reading an absent name through std::map::operator[]
// inserts it with the default value, so the getters change the maps too.

module ParameterSets {
  const TwoTo64: nat := 0x1_0000_0000_0000_0000

  /** A uint64_t value. */
  type Uint64 = x: nat | x < TwoTo64

  /** The names of the default parameters. */
  const Sigma: string := "-s"
  const Iter: string := "-i"
  const Minimum: string := "-m"
  const Output: string := "-o"
  const Permute: string := "-pc"
  const CwFile: string := "-cw"
  const CmFile: string := "-cm"
  const DOutput: string := "-d"

  /** The value GetIntegerParameter(name) reports for the integer map m:
      the stored one, or 0 for an absent name. */
  function Setting(m: map<string, Uint64>, name: string): Uint64
  {
    if name in m then m[name] else 0
  }

  function DefaultNames(): seq<string>
  {
    [Sigma, Iter, Minimum, Output, Permute, CwFile, CmFile, DOutput]
  }

  /** The eight default names are pairwise different, so each names its
      own parameter. */
  lemma DefaultNamesDistinct()
    ensures forall i, j :: 0 <= i < j < |DefaultNames()| ==> DefaultNames()[i] != DefaultNames()[j]
  {
    var d := DefaultNames();
    forall i, j | 0 <= i < j < |d| ensures d[i] != d[j] {
      assert d[i][0] == '-' && d[j][0] == '-';
      assert |d[i]| == 2 && |d[j]| == 2 ==> d[i][1] != d[j][1];
    }
  }

  /** The integer map after GetIntegerParameter has been called for each
      of names: the names already present keep their values, the absent
      ones are inserted as 0. */
  function WithDefaults(m: map<string, Uint64>, names: set<string>): (r: map<string, Uint64>)
    ensures r.Keys == m.Keys + names
  {
    map x | x in m.Keys + names :: Setting(m, x)
  }

  /** Reading one more name is the same as having read it with the others;
      reading a name twice changes nothing. */
  lemma {:induction false} ReadOneMore(m: map<string, Uint64>, names: set<string>, x: string)
    ensures var w := WithDefaults(m, names);
            w[x := Setting(w, x)] == WithDefaults(m, names + {x})
    ensures WithDefaults(m, names)[x := Setting(m, x)] == WithDefaults(m, names + {x})
    ensures forall y :: y in m ==> WithDefaults(m, names)[y] == m[y]
  {
    var w, v := WithDefaults(m, names), WithDefaults(m, names + {x});
    assert Setting(w, x) == Setting(m, x);
    assert w[x := Setting(w, x)].Keys == v.Keys;
  }

  class Parameters {
    var integers: map<string, Uint64>
    var strings: map<string, string>
    var helpTexts: map<string, string>

    constructor()
      ensures integers == map[] && strings == map[] && helpTexts == map[]
    {
      integers, strings, helpTexts := map[], map[], map[];
    }

    /** AddParameter(name, integer value, help text). */
    method AddIntegerParameter(name: string, value: Uint64, help: string)
      modifies this
      ensures integers == old(integers)[name := value] && helpTexts == old(helpTexts)[name := help]
      ensures strings == old(strings)
    {
      integers := integers[name := value];
      helpTexts := helpTexts[name := help];
    }

    /** AddParameter(name, string value, help text). */
    method AddStringParameter(name: string, value: string, help: string)
      modifies this
      ensures strings == old(strings)[name := value] && helpTexts == old(helpTexts)[name := help]
      ensures integers == old(integers)
    {
      strings := strings[name := value];
      helpTexts := helpTexts[name := help];
    }

    /** GetIntegerParameter(name): the stored value; an absent name is
        inserted with value 0, which is returned. */
    method GetIntegerParameter(name: string) returns (r: Uint64)
      modifies this
      ensures r == (if name in old(integers) then old(integers)[name] else 0)
      ensures integers == old(integers)[name := r]
      ensures strings == old(strings) && helpTexts == old(helpTexts)
    {
      if name !in integers {
        integers := integers[name := 0];
      }
      r := integers[name];
    }

    /** GetStringParameter(name): the stored value; an absent name is
        inserted with the empty string. */
    method GetStringParameter(name: string) returns (r: string)
      modifies this
      ensures r == (if name in old(strings) then old(strings)[name] else "")
      ensures strings == old(strings)[name := r]
      ensures integers == old(integers) && helpTexts == old(helpTexts)
    {
      if name !in strings {
        strings := strings[name := ""];
      }
      r := strings[name];
    }

    /** GetHelpText(name): the stored text; an absent name is inserted with
        the empty string. */
    method GetHelpText(name: string) returns (r: string)
      modifies this
      ensures r == (if name in old(helpTexts) then old(helpTexts)[name] else "")
      ensures helpTexts == old(helpTexts)[name := r]
      ensures integers == old(integers) && strings == old(strings)
    {
      if name !in helpTexts {
        helpTexts := helpTexts[name := ""];
      }
      r := helpTexts[name];
    }

    /** SetParameter(name, integer value): the help text is left alone. */
    method SetIntegerParameter(name: string, value: Uint64)
      modifies this
      ensures integers == old(integers)[name := value]
      ensures strings == old(strings) && helpTexts == old(helpTexts)
    {
      integers := integers[name := value];
    }

    /** SetParameter(name, string value): the help text is left alone. */
    method SetStringParameter(name: string, value: string)
      modifies this
      ensures strings == old(strings)[name := value]
      ensures integers == old(integers) && helpTexts == old(helpTexts)
    {
      strings := strings[name := value];
    }

    /** SetHelpText(name, text): only the help text changes. */
    method SetHelpText(name: string, text: string)
      modifies this
      ensures helpTexts == old(helpTexts)[name := text]
      ensures integers == old(integers) && strings == old(strings)
    {
      helpTexts := helpTexts[name := text];
    }
  }
}
