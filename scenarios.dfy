/** Worked instances of the inventory rules on small tables. */
module InventoryExamples {
  import opened Options
  import opened Text
  import opened Dates
  import opened Tables
  import opened Inventory

  /** A table holding assets 101 and 102 gives the next asset ID 103. */
  lemma NextIdAfterSample()
    ensures NextId(Sample()) == 103
  {
  }

  /** On 2024-06-01, an asset due 2024-05-01 is overdue, one due 2024-07-01
      is not, and one without a date never is. */
  lemma OverdueExample(a: Asset)
    requires a.status == CheckedOut
    ensures var today := FormatIso(Date(2024, 6, 1));
      var early := a.(dueDate := FormatIso(Date(2024, 5, 1)));
      var late := a.(dueDate := FormatIso(Date(2024, 7, 1)));
      var none := a.(dueDate := "");
      var r := Overdue([early, late, none], today);
      early in r && late !in r && none !in r
  {
    var today := FormatIso(Date(2024, 6, 1));
    var early := a.(dueDate := FormatIso(Date(2024, 5, 1)));
    var late := a.(dueDate := FormatIso(Date(2024, 7, 1)));
    assert IsOverdue(early, today) by {
      FormattedOrder(Date(2024, 5, 1), Date(2024, 6, 1));
    }
    assert !IsOverdue(late, today) by {
      FormattedOrder(Date(2024, 7, 1), Date(2024, 6, 1));
    }
  }

  /** Searching "pi" finds "Raspberry Pi 4" by name. */
  lemma SearchByName()
    ensures Sample()[1] in Search(Sample(), "pi")
  {
    var pi := Sample()[1];
    var lowered := Lower(pi.name);
    assert pi.name[10] == 'P' && pi.name[11] == 'i';
    assert lowered[10] == 'p' && lowered[11] == 'i';
    assert Lower("pi") == "pi";
    assert lowered[10..12] == "pi";
    assert OccursAt(lowered, Lower("pi"), 10);
    ContainsIff(lowered, Lower("pi"));
  }

  /** Searching "102" finds asset 102 by its ID. */
  lemma SearchById()
    ensures Sample()[1] in Search(Sample(), "102")
  {
    assert NatDecimal(1) == "1";
    assert NatDecimal(10) == "10";
    assert Decimal(102) == "102";
    ContainsIff(Decimal(102), "102");
    assert OccursAt(Decimal(102), "102", 0);
  }

  /** Deleting both sample assets and saving leaves a file that the
      program's loader cannot load, while the corrected loader gives back
      the empty table. */
  lemma DeleteAllBreaksReload()
    ensures var df := Without(Without(Sample(), 101), 102);
      df == [] &&
      LoadAsWritten(StoreRows(SanitizeTable(df))).None? &&
      LoadRows(StoreRows(SanitizeTable(df))) == []
  {
    var once := Without(Sample(), 101);
    var twice := Without(once, 102);
    assert forall a :: a in once ==> a.id == 102;
    SaveLoadAsWritten(twice);
  }
}

/** Worked instances of the credential rules on a fresh store. */
module CredentialsExamples {
  import opened Options
  import opened Credentials

  /** Register, log in, use a wrong password and register again, on a fresh
      store: what the contracts above let a caller conclude. */
  method SignUpScenario(hash: string -> string)
    requires hash("pw1") != hash("wrongpw")
  {
    var store := new UserStore(hash, None);
    var r := store.SignUp("bob", "pw1", false, "");
    assert !HasUser(SeedUsers(hash), "bob");
    assert r == Created(Student);
    var users := SeedUsers(hash);
    LoginAfterAdd(users, hash, "bob", "pw1", Student);
    var role := store.LoginUser("bob", "pw1");
    assert role == Some(Student);
    WrongPasswordFails(users, hash, "bob", "pw1", "wrongpw", Student);
    role := store.LoginUser("bob", "wrongpw");
    assert role == None;
    r := store.SignUp("bob", "pw2", false, "");
    assert HasUser(store.file.value, "bob") by {
      assert store.file.value[1].username == "bob";
    }
    assert r == UsernameTaken;
  }
}

