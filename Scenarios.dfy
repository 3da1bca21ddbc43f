/**
 * The fixture data of the seed script, and what the model says about it:
 * two top-level activities with two children each, two buildings, and one
 * organization tagged with a top-level activity and both of its children.
 */
module Scenarios {
  import opened Outcome
  import opened Entities
  import opened ActivityRepository
  import opened ActivityService
  import opened OrganizationRepository
  import opened OrganizationService
  import opened Schemas

  function SeedActivities(): Activities {
    map[1 := Activity("Еда", None),
        2 := Activity("Автомобили", None),
        3 := Activity("Мясная продукция", Some(1)),
        4 := Activity("Молочная продукция", Some(1)),
        5 := Activity("Запчасти", Some(2)),
        6 := Activity("Аксессуары", Some(2))]
  }

  function SeedBuildings(): map<int, Building> {
    map[1 := Building("ул. Ленина, 1", 55.7558, 37.6173),
        2 := Building("ул. Мира, 10", 55.7580, 37.6200)]
  }

  function SeedOrganizations(): Organizations {
    map[1 := Organization("ООО Рога и Копыта", ["+79991234567"], Some(1), {1, 3, 4})]
  }

  /** The seed forest has two levels, so it is within the three-level cap. */
  lemma SeedLevels()
    ensures WithinNestingLimit(SeedActivities())
    ensures Depth(SeedActivities(), 1) == 0 && Depth(SeedActivities(), 3) == 1
  {
    var acts := SeedActivities();
    assert IsTopAt(acts, 1, 0) && IsTopAt(acts, 2, 0);
    assert IsTopAt(acts, 3, 1) && IsTopAt(acts, 4, 1) && IsTopAt(acts, 5, 1) && IsTopAt(acts, 6, 1);
    assert Acyclic(acts);
    forall id | id in acts ensures Depth(acts, id) <= MaxLevel {
      if id == 1 || id == 2 {
        DepthIsHopCount(acts, id, 0);
      } else {
        DepthIsHopCount(acts, id, 1);
      }
    }
    DepthIsHopCount(acts, 1, 0);
    DepthIsHopCount(acts, 3, 1);
  }

  /** The subtree of "Еда" within three links is the activity and its two children. */
  lemma FoodSubtree()
    ensures SubActivities(SeedActivities(), 1, 3) == {1, 3, 4}
  {
    var acts := SeedActivities();
    assert Level(acts, 1, 0) == {1};
    assert Level(acts, 1, 1) == {3, 4} by {
      assert forall c :: c in Children(acts, {1}) <==> c == 3 || c == 4;
    }
    assert Level(acts, 1, 2) == {} by {
      assert forall c :: c !in Children(acts, {3, 4});
    }
    assert Level(acts, 1, 3) == {} by {
      assert forall c :: c !in Children(acts, {});
    }
  }

  /**
   * Searching by "Еда" finds the seeded organization once, although it is
   * tagged with the activity and both of its children.
   */
  lemma ByFoodFindsSeedOrganization()
    ensures ByActivities(SeedOrganizations(), SeedActivities(), SubActivities(SeedActivities(), 1, 3)) == {1}
    ensures ByActivityDirect(SeedOrganizations(), SeedActivities(), 3) == {1}
    ensures ByActivityDirect(SeedOrganizations(), SeedActivities(), 2) == {}
  {
    FoodSubtree();
    var r := ByActivities(SeedOrganizations(), SeedActivities(), {1, 3, 4});
    assert 1 in r by {
      assert 1 in SeedOrganizations()[1].activities;
    }
    var d := ByActivityDirect(SeedOrganizations(), SeedActivities(), 3);
    assert 1 in d by {
      assert 3 in SeedOrganizations()[1].activities;
    }
  }

  /**
   * An activity may go under a level-1 activity, landing on level 2, but
   * nothing may go under that one.
   */
  lemma LevelCapScenario()
    ensures Acyclic(SeedActivities()) && Acyclic(SeedActivities()[7 := Activity("Говядина", Some(3))])
    ensures ParentCheck(SeedActivities(), None, 3) == None
    ensures ParentCheck(SeedActivities()[7 := Activity("Говядина", Some(3))], None, 7) == Some(NestingLimit)
  {
    SeedLevels();
    var acts := SeedActivities();
    var grown := acts[7 := Activity("Говядина", Some(3))];
    assert Unreferenced(acts, 7);
    AddLeafLevels(acts, 7, Activity("Говядина", Some(3)));
    assert GetDepth(acts, Some(3)) == Depth(acts, 3) == 1;
  }

  /**
   * Moving "Еда" under its own child "Мясная продукция" passes the update's
   * parent check, since that child is on level 1; afterwards the walk up from
   * "Еда" never ends. The corrected check refuses the move.
   */
  lemma UpdateClosesCycle()
    ensures HasTop(SeedActivities(), 3)
    ensures ParentCheck(SeedActivities(), Some(1), 3) == None
    ensures MoveCheck(SeedActivities(), 1, 3) == Some(ParentIsDescendant)
    ensures !HasTop(SeedActivities()[1 := Activity("Еда", Some(3))], 1)
  {
    SeedLevels();
    var acts := SeedActivities();
    assert AncestorOrSelf(acts, 1, 3) by {
      assert ParentIn(acts, 3) == Some(1);
    }
    ParentCheckAdmitsCycle(acts, 1, Activity("Еда", Some(3)));
  }

  /**
   * Creating an organization with a repeated but existing activity id passes
   * the service's existence loop and is refused as a duplicate; an unknown id
   * is reported by value.
   */
  lemma CreateScenarios()
    ensures CreateOutcome(SeedActivities(), SeedBuildings(), 1, [1, 1]) == Err(DuplicateActivityIds)
    ensures CreateOutcome(SeedActivities(), SeedBuildings(), 1, [1, 9]) == Err(ActivityNotFound(9))
    ensures CreateOutcome(SeedActivities(), SeedBuildings(), 3, [1]) == Err(BuildingNotFound(3))
    ensures CreateOutcome(SeedActivities(), SeedBuildings(), 2, [5, 6]) == Ok({5, 6})
  {
    CreateOutcomeCases(SeedActivities(), SeedBuildings(), 1, [1, 1]);
    assert !Distinct([1, 1]) by {
      SetOfSeqSize([1, 1]);
      assert ToSet([1, 1]) == {1};
    }
    assert FirstMissing(SeedActivities(), [1, 9]) == Some(9);
    CreateOutcomeCases(SeedActivities(), SeedBuildings(), 2, [5, 6]);
    assert ToSet([5, 6]) == {5, 6};
    SetOfSeqSize([5, 6]);
  }

  /** The seeded mobile number is accepted, also with a final newline. */
  lemma AcceptedMobileExamples()
    ensures ValidPhone("+79991234567")
    ensures ValidPhone("+79991234567\n")
    ensures PhonesProblem([]) == None
  {
    assert IsMobile("+79991234567");
    assert "+79991234567\n"[..12] == "+79991234567";
  }

  /** The short and the long form, with any of the separators. */
  lemma AcceptedLandlineExamples()
    ensures ValidPhone("8-800-555")
    ensures ValidPhone("2.123 456")
    ensures ValidPhone("8-800-555-35-35")
  {
    ShortExample("8-800-555", "800", "555");
    ShortExample("2.123 456", "123", "456");
    assert IsLong("8-800-555-35-35") by {
      var p := "8-800-555-35-35";
      assert p[..9] == "8-800-555";
      assert p[9..12] == "-35" && "-35"[1..] == "35";
      assert p[12..] == "-35";
    }
  }

  /** Phones refused: a wrong lead digit, a group too long, too few digits, no `+`, a doubled separator. */
  lemma RefusedPhoneExamples()
    ensures !ValidPhone("9-800-555")
    ensures !ValidPhone("8-800-5555")
    ensures !ValidPhone("+7999123456")
    ensures !ValidPhone("89991234567")
    ensures !ValidPhone("8--80-555")
  {
    assert !IsSeparator('8');
    assert "8--80-555"[1..5] == "--80" && "--80"[1..] == "-80" && !IsDigit("-80"[0]);
  }

  /** A short form with the given digit groups: the lead digit, a separator, three digits, twice. */
  lemma ShortExample(p: string, g1: string, g2: string)
    requires |p| == 9 && (p[0] == '2' || p[0] == '3' || p[0] == '8')
    requires IsSeparator(p[1]) && IsSeparator(p[5]) && p[2..5] == g1 && p[6..] == g2
    requires AllDigits(g1) && AllDigits(g2)
    ensures IsShort(p)
  {
    assert p[1..5][1..] == g1;
    assert p[5..][1..] == g2;
  }

  /** The activity name cap sits at exactly 100 characters. */
  lemma ActivityNameLengthCap()
    ensures ActivityNameProblem(seq(100, i => 'a')) == None
    ensures ActivityNameProblem(seq(101, i => 'a')) == Some(TooLong)
  {
    assert seq(100, i => 'a')[0] == 'a';
    assert seq(101, i => 'a')[0] == 'a';
  }

  /** Blankness is reported before length. */
  lemma ActivityNameBlankFirst()
    ensures ActivityNameProblem(seq(101, i => ' ')) == Some(Blank)
  {
  }

  /** Tabs and newlines are whitespace. */
  lemma TabNewlineIsBlank()
    ensures ActivityNameProblem("\t\n") == Some(Blank)
  {
    assert IsBlank("\t\n");
  }

  /** Surrounding spaces do not make an address blank, and they are kept. */
  lemma PaddedAddressAccepted()
    ensures NonBlankProblem(" ул. Мира ") == None
  {
    assert !IsSpace(" ул. Мира "[1]);
  }

  /** The update schema lets a blank name and a malformed phone through. */
  lemma UpdateSkipsNameAndPhones()
    ensures OrganizationUpdateErrors(Some("  "), Some(["call me"]), None, None) == []
    ensures OrganizationUpdateErrors(None, None, None, Some([])) == [FieldError("activity_ids", NoActivities)]
  {
  }

  /** The create schema refuses the same blank name. */
  lemma CreateRefusesBlankName()
    ensures OrganizationCreateErrors("  ", ["+79991234567"], Some(1), [1]) == [FieldError("name", Blank)]
  {
    assert IsBlank("  ");
    assert ValidPhone(["+79991234567"][0]) by {
      assert IsMobile("+79991234567");
    }
    assert PhonesProblem(["+79991234567"]) == None;
  }
}
