/** The demonstration sequence of `main` in main.go, replayed on the model. */
module Demo {
  import opened Wrappers
  import opened Entries
  import opened Lru

  /** The demo stores both strings and an integer under one cache. */
  datatype Value = Str(s: string) | Int(n: int)

  const company := Entry("company", Str("Yandex"))
  const division := Entry("division", Str("Yandex Lyceum"))
  const course := Entry("course", Str("Golang"))
  const year := Entry("year", Int(2024))
  const age := Entry("age", Str("13-17yrs"))

  const full := Cache(3, [course, division, company],
                      map["company" := company.value, "division" := division.value, "course" := course.value])

  /** The three insertions into a fresh cache of capacity 3. */
  lemma Filled()
    ensures Set(Set(Set(New(3), company.key, company.value), division.key, division.value), course.key, course.value)
         == full
    ensures Valid(full)
  {
    var c1 := Set(New(3), company.key, company.value);
    assert c1 == Cache(3, [company], map["company" := company.value]);
    var c2 := Set(c1, division.key, division.value);
    assert "division" !in c1.index;
    assert c2 == Cache(3, [division, company], map["company" := company.value, "division" := division.value]);
    assert "course" !in c2.index;
  }

  lemma FullIsValid()
    ensures Valid(full)
  {
    Filled();
  }

  const read := full.(entries := [company, course, division])

  /** Reading "company" returns its value and moves it to the front. */
  lemma ReadCompany()
    ensures Valid(full)
    ensures Get(full, "company") == Got(read, Some(Str("Yandex")))
    ensures Valid(read)
  {
    FullIsValid();
    assert "company" in full.index;
    assert Without([company], "company") == [];
    assert Without([division, company], "company") == [division];
    assert Without(full.entries, "company") == [course, division];
  }

  lemma ReadIsValid()
    ensures Valid(read)
  {
    ReadCompany();
  }

  const afterYear := Cache(3, [year, company, course],
                           map["company" := company.value, "course" := course.value, "year" := year.value])
  const afterAge := Cache(3, [age, year, company],
                          map["company" := company.value, "year" := year.value, "age" := age.value])

  /** "year" evicts "division", then "age" evicts "course". */
  lemma EvictTwice()
    ensures Valid(read) && Set(read, year.key, year.value) == afterYear
    ensures Valid(afterYear) && Set(afterYear, age.key, age.value) == afterAge
  {
    ReadIsValid();
    assert "year" !in read.index;
    assert read.index - {"division"} == map["company" := company.value, "course" := course.value];
    var c4 := Set(read, year.key, year.value);
    assert c4 == afterYear;
    assert "age" !in afterYear.index;
    assert afterYear.index - {"course"} == map["company" := company.value, "year" := year.value];
  }

  /** Capacity 3: three insertions fill the cache, reading "company" makes
      it most recent, so "year" evicts "division" and "age" evicts "course",
      leaving age, year, company from front to back. */
  lemma MainScenario()
    ensures var c3 := Set(Set(Set(New(3), company.key, company.value), division.key, division.value), course.key, course.value);
      var g := Get(c3, "company");
      var c4 := Set(g.cache, year.key, year.value);
      var c5 := Set(c4, age.key, age.value);
      && c3.entries == [course, division, company]
      && g.value == Some(Str("Yandex"))
      && g.cache.entries == [company, course, division]
      && c4.entries == [year, company, course]
      && c5.entries == [age, year, company]
      && c5.index.Keys == {"age", "year", "company"}
  {
    Filled();
    ReadCompany();
    EvictTwice();
  }
}
