/** get_category_name: the classifier's numeric class id to a job category. */
module Categories {

  /** The dictionary literal inside get_category_name, entry for entry. */
  const CategoryMapping: map<int, string> := map[
    6 := "Data Science", 12 := "HR", 0 := "Advocate", 1 := "Arts",
    24 := "Web Designing", 16 := "Mechanical Engineer",
    22 := "Sales", 14 := "Health and Fitness", 5 := "Civil Engineer",
    15 := "Java Developer", 4 := "Business Analyst",
    21 := "SAP Developer", 2 := "Automation Testing",
    11 := "Electrical Engineering", 18 := "Operations Manager",
    20 := "Python Developer", 8 := "DevOps Engineer",
    17 := "Network Security Engineer", 19 := "PMO",
    7 := "Database", 13 := "Hadoop", 10 := "ETL Developer",
    9 := "DotNet Developer", 3 := "Blockchain", 23 := "Testing"
  ]

  /** The fallback of `dict.get`. */
  const Unknown: string := "Unknown"

  /** get_category_name(id): the table's label, or "Unknown" for any other id. */
  function CategoryName(id: int): (r: string)
    ensures r == Unknown || r in CategoryMapping.Values
  {
    if id in CategoryMapping then CategoryMapping[id] else Unknown
  }

  // ---------------------------------------------------------------------
  // An independent description of the table
  // ---------------------------------------------------------------------

  /** The labels listed by id: position i holds the label of class i. In
      this order the labels are also sorted by code point (LabelsAscending). */
  const Labels: seq<string> := [
    "Advocate", "Arts", "Automation Testing", "Blockchain", "Business Analyst",
    "Civil Engineer", "Data Science", "Database", "DevOps Engineer",
    "DotNet Developer", "ETL Developer", "Electrical Engineering", "HR",
    "Hadoop", "Health and Fitness", "Java Developer", "Mechanical Engineer",
    "Network Security Engineer", "Operations Manager", "PMO",
    "Python Developer", "SAP Developer", "Sales", "Testing", "Web Designing"
  ]

  /** Strict lexicographic order on strings, by code point (Python's `<`). */
  predicate Below(a: string, b: string)
    decreases |a|
  {
    |b| > 0 && (|a| == 0 || a[0] < b[0] || (a[0] == b[0] && Below(a[1..], b[1..])))
  }

  lemma {:induction false} BelowIrreflexive(a: string)
    ensures !Below(a, a)
    decreases |a|
  {
    if |a| > 0 {
      BelowIrreflexive(a[1..]);
    }
  }

  lemma {:induction false} BelowTransitive(a: string, b: string, c: string)
    requires Below(a, b) && Below(b, c)
    ensures Below(a, c)
    decreases |a|
  {
    if |a| > 0 && a[0] == b[0] && b[0] == c[0] {
      BelowTransitive(a[1..], b[1..], c[1..]);
    }
  }

  predicate Ascending(s: seq<string>) {
    forall i :: 0 <= i < |s| - 1 ==> Below(s[i], s[i + 1])
  }

  /** In a strictly ascending list every earlier entry is below every later one. */
  lemma {:induction false} AscendingBelow(s: seq<string>, i: nat, j: nat)
    requires Ascending(s)
    requires i < j < |s|
    ensures Below(s[i], s[j])
    decreases j - i
  {
    if i + 1 < j {
      AscendingBelow(s, i + 1, j);
      BelowTransitive(s[i], s[i + 1], s[j]);
    }
  }

  /** ... so its entries are pairwise distinct. */
  lemma AscendingDistinct(s: seq<string>, i: nat, j: nat)
    requires Ascending(s)
    requires i < |s| && j < |s| && i != j
    ensures s[i] != s[j]
  {
    if i < j {
      AscendingBelow(s, i, j);
      BelowIrreflexive(s[j]);
    } else {
      AscendingBelow(s, j, i);
      BelowIrreflexive(s[i]);
    }
  }

  /** Below, decided pair by pair for the labels in order. */
  lemma LabelsAscendingA()
    ensures forall i :: 0 <= i < 8 ==> Below(Labels[i], Labels[i + 1])
  {
  }

  lemma LabelsAscendingB()
    ensures forall i :: 8 <= i < 16 ==> Below(Labels[i], Labels[i + 1])
  {
  }

  lemma LabelsAscendingC()
    ensures forall i :: 16 <= i < 24 ==> Below(Labels[i], Labels[i + 1])
  {
  }

  lemma LabelsAscending()
    ensures Ascending(Labels)
  {
    LabelsAscendingA();
    LabelsAscendingB();
    LabelsAscendingC();
  }

  // ---------------------------------------------------------------------
  // What the table promises
  // ---------------------------------------------------------------------

  /** The table covers exactly the ids 0..24 ... */
  lemma CategoryMappingDomain()
    ensures forall id :: id in CategoryMapping <==> 0 <= id < |Labels|
  {
  }

  lemma CategoryMappingLow()
    ensures forall id :: 0 <= id < 8 ==> CategoryMapping[id] == Labels[id]
  {
  }

  lemma CategoryMappingMiddle()
    ensures forall id :: 8 <= id < 16 ==> CategoryMapping[id] == Labels[id]
  {
  }

  lemma CategoryMappingHigh()
    ensures forall id :: 16 <= id < 25 ==> CategoryMapping[id] == Labels[id]
  {
  }

  /** ... and id i names Labels[i]. */
  lemma CategoryMappingIsLabels()
    ensures forall id :: id in CategoryMapping <==> 0 <= id < |Labels|
    ensures forall id :: 0 <= id < |Labels| ==> CategoryMapping[id] == Labels[id]
  {
    CategoryMappingDomain();
    CategoryMappingLow();
    CategoryMappingMiddle();
    CategoryMappingHigh();
  }

  /** get_category_name returns Labels[id] on 0..24 and "Unknown" elsewhere. */
  lemma CategoryNameIsLabel(id: int)
    ensures CategoryName(id) == if 0 <= id < |Labels| then Labels[id] else Unknown
  {
    CategoryMappingIsLabels();
  }

  /** No label is "Unknown", so the fallback is told apart from every table
      hit: a label comes back exactly when 0 <= id <= 24. */
  lemma CategoryNameKnown(id: int)
    ensures CategoryName(id) != Unknown <==> 0 <= id <= 24
  {
    CategoryNameIsLabel(id);
    if 0 <= id < 24 {
      var last := Labels[23];
      assert Below(last, Unknown);
      if id < 23 {
        LabelsAscending();
        AscendingBelow(Labels, id, 23);
        BelowTransitive(Labels[id], last, Unknown);
      }
      BelowIrreflexive(Unknown);
    } else if id == 24 {
      assert Below(Unknown, Labels[24]);
      BelowIrreflexive(Unknown);
    }
  }

  /** Different ids in the table have different labels. */
  lemma CategoryNameInjective(i: int, j: int)
    requires 0 <= i <= 24 && 0 <= j <= 24 && i != j
    ensures CategoryName(i) != CategoryName(j)
  {
    CategoryNameIsLabel(i);
    CategoryNameIsLabel(j);
    LabelsAscending();
    AscendingDistinct(Labels, i, j);
  }

  lemma CategoryNameExamples()
    ensures CategoryName(6) == "Data Science"
    ensures CategoryName(24) == "Web Designing"
    ensures CategoryName(99) == "Unknown"
    ensures CategoryName(-1) == "Unknown"
  {
  }
}
