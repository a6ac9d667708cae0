/**
 * Two list comprehensions over an employee table: `names1` joins every row's first and last
 * name with a space, and `names2` keeps the names in which the letter 'e' occurs.
 */
module Names {

  /** The two columns of an employee row that the comprehensions read. */
  datatype Employee = Employee(firstName: string, lastName: string)

  /** The letter `"e" in name` looks for; the test is case-sensitive. */
  const Letter: char := 'e'

  /** `first_name + " " + last_name`. */
  function FullName(e: Employee): string {
    e.firstName + " " + e.lastName
  }

  /** `names1`: one full name per row, in row order. */
  function Names1(df: seq<Employee>): (names: seq<string>)
    ensures |names| == |df|
    ensures forall i :: 0 <= i < |df| ==> names[i] == FullName(df[i])
  {
    if df == [] then [] else Names1(df[..|df| - 1]) + [FullName(df[|df| - 1])]
  }

  /** `names2`: the names holding the letter, in their original order. */
  function Names2(names: seq<string>): (kept: seq<string>)
    ensures |kept| <= |names|
    ensures forall k :: 0 <= k < |kept| ==> Letter in kept[k]
  {
    if names == [] then []
    else
      var n := |names| - 1;
      Names2(names[..n]) + if Letter in names[n] then [names[n]] else []
  }

  /** Filtering works on each part of the list independently, so it keeps the order. */
  lemma {:induction false} Names2Append(a: seq<string>, b: seq<string>)
    ensures Names2(a + b) == Names2(a) + Names2(b)
    decreases |b|
  {
    if b == [] {
      assert a + b == a;
    } else {
      var n := |b| - 1;
      assert (a + b)[..|a + b| - 1] == a + b[..n];
      Names2Append(a, b[..n]);
    }
  }

  /** Every name holding the letter is kept as often as it occurs, and no other name is. */
  lemma {:induction false} Names2Counts(names: seq<string>)
    ensures forall s :: multiset(Names2(names))[s] == if Letter in s then multiset(names)[s] else 0
  {
    if names != [] {
      var n := |names| - 1;
      Names2Counts(names[..n]);
      assert names == names[..n] + [names[n]];
    }
  }

  /** The space adds no letter: a full name holds 'e' iff the first or the last name does. */
  lemma LetterInFullName(e: Employee)
    ensures Letter in FullName(e) <==> Letter in e.firstName || Letter in e.lastName
  {
    var full := FullName(e);
    var f := |e.firstName|;
    if Letter in full {
      var i :| 0 <= i < |full| && full[i] == Letter;
      if i < f {
        assert e.firstName[i] == Letter;
      } else if i > f {
        assert e.lastName[i - f - 1] == Letter;
      }
    }
    if Letter in e.firstName {
      var i :| 0 <= i < f && e.firstName[i] == Letter;
      assert full[i] == Letter;
    }
    if Letter in e.lastName {
      var i :| 0 <= i < |e.lastName| && e.lastName[i] == Letter;
      assert full[f + 1 + i] == Letter;
    }
  }

  /** The employees whose first or last name holds the letter, in row order. */
  function EmployeesWithLetter(df: seq<Employee>): seq<Employee> {
    if df == [] then []
    else
      var n := |df| - 1;
      var e := df[n];
      EmployeesWithLetter(df[..n]) + if Letter in e.firstName || Letter in e.lastName then [e] else []
  }

  /** Both comprehensions together: the full names of exactly those employees. */
  lemma {:induction false} Names2OfNames1(df: seq<Employee>)
    ensures Names2(Names1(df)) == Names1(EmployeesWithLetter(df))
  {
    if df != [] {
      var n := |df| - 1;
      Names2OfNames1(df[..n]);
      LetterInFullName(df[n]);
      assert Names1(df)[..n] == Names1(df[..n]);
      var rest := EmployeesWithLetter(df[..n]);
      if Letter in df[n].firstName || Letter in df[n].lastName {
        assert (rest + [df[n]])[..|rest|] == rest;
      } else {
        assert rest + [] == rest;
      }
    }
  }

  /** The test is case-sensitive: an upper-case 'E' does not keep a name. */
  lemma CaseSensitive(name: string)
    requires name == "EVA"
    ensures Names2([name]) == []
  {
    assert [name][..0] == [];
    assert Letter !in name by {
      forall i | 0 <= i < |name| ensures name[i] != Letter { }
    }
  }
}
