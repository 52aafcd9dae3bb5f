/**
 * Where the runs live (src/util.cc): how many runs a level has, which page of
 * the SSTable file each run owns, and the order in which slots are filled,
 * which is also their age order.
 */
module Layout {
  import opened Common

  function GetMaxRun(cfg: Config, level: nat): nat {
    (level + 1) * cfg.maxRunPerLevel
  }

  function GetPageId(cfg: Config, level: nat, run: nat): nat {
    level * (level + 1) * cfg.maxRunPerLevel / 2 + run
  }

  predicate ValidRun(cfg: Config, level: int, run: int) {
    0 <= level < cfg.maxLevelNum && 0 <= run < GetMaxRun(cfg, level)
  }

  lemma PageBaseStep(cfg: Config, level: nat)
    ensures GetPageId(cfg, level + 1, 0) == GetPageId(cfg, level, GetMaxRun(cfg, level))
  {
    var m := cfg.maxRunPerLevel;
    assert (level + 1) * (level + 2) * m == level * (level + 1) * m + 2 * ((level + 1) * m);
  }

  lemma {:induction false} PageBaseMonotone(cfg: Config, l1: nat, l2: nat)
    requires l1 < l2
    ensures GetPageId(cfg, l1, GetMaxRun(cfg, l1)) <= GetPageId(cfg, l2, 0)
    decreases l2 - l1
  {
    PageBaseStep(cfg, l1);
    if l1 + 1 < l2 { PageBaseMonotone(cfg, l1 + 1, l2); }
  }

  lemma TotalPagesBase(cfg: Config)
    ensures cfg.TotalPages() == GetPageId(cfg, cfg.maxLevelNum, 0)
  {
    var l := cfg.maxLevelNum;
    assert (1 + l) * l * cfg.maxRunPerLevel == l * (l + 1) * cfg.maxRunPerLevel;
  }

  lemma PageIdInRange(cfg: Config, level: nat, run: nat)
    requires ValidRun(cfg, level, run)
    ensures 0 <= GetPageId(cfg, level, run) < cfg.TotalPages()
  {
    TotalPagesBase(cfg);
    PageBaseMonotone(cfg, level, cfg.maxLevelNum);
  }

  // Distinct runs own distinct pages.
  lemma PageIdInjective(cfg: Config, l1: nat, r1: nat, l2: nat, r2: nat)
    requires ValidRun(cfg, l1, r1) && ValidRun(cfg, l2, r2)
    requires GetPageId(cfg, l1, r1) == GetPageId(cfg, l2, r2)
    ensures l1 == l2 && r1 == r2
  {
    if l1 < l2 {
      PageBaseMonotone(cfg, l1, l2);
    } else if l2 < l1 {
      PageBaseMonotone(cfg, l2, l1);
    }
  }

  // Pages are numbered from the top level down, each level from the left.
  lemma PageIdOrder(cfg: Config, l1: nat, r1: nat, l2: nat, r2: nat)
    requires ValidRun(cfg, l1, r1) && ValidRun(cfg, l2, r2)
    ensures GetPageId(cfg, l1, r1) < GetPageId(cfg, l2, r2) <==> l1 < l2 || (l1 == l2 && r1 < r2)
  {
    if l1 < l2 {
      PageBaseMonotone(cfg, l1, l2);
    } else if l2 < l1 {
      PageBaseMonotone(cfg, l2, l1);
    }
  }

  // Every page below the total belongs to some run.
  lemma {:induction false} PageIdSurjective(cfg: Config, id: nat, below: nat) returns (level: nat, run: nat)
    requires below <= cfg.maxLevelNum && id < GetPageId(cfg, below, 0)
    ensures level < below && ValidRun(cfg, level, run) && GetPageId(cfg, level, run) == id
    decreases below
  {
    PageBaseStep(cfg, below - 1);
    if id < GetPageId(cfg, below - 1, 0) {
      level, run := PageIdSurjective(cfg, id, below - 1);
    } else {
      level, run := below - 1, id - GetPageId(cfg, below - 1, 0);
    }
  }

  // GetLevelRunNo inverts GetPageId: it finds the one run that owns a page,
  // and finds one exactly for the non-overflow pages.
  method GetLevelRunNo(cfg: Config, pageId: int) returns (found: bool, level: nat, run: nat)
    ensures found <==> 0 <= pageId < cfg.TotalPages()
    ensures found ==> ValidRun(cfg, level, run) && GetPageId(cfg, level, run) == pageId
    ensures found ==> forall l, r :: ValidRun(cfg, l, r) && GetPageId(cfg, l, r) == pageId ==> l == level && r == run
  {
    found, level, run := false, 0, 0;
    var levelId := 0;
    while levelId < cfg.maxLevelNum
      invariant 0 <= levelId <= cfg.maxLevelNum
      invariant forall l, r :: 0 <= l < levelId && 0 <= r < GetMaxRun(cfg, l) ==> GetPageId(cfg, l, r) != pageId
    {
      var curMaxRun := GetMaxRun(cfg, levelId);
      var runId := 0;
      while runId < curMaxRun
        invariant 0 <= runId <= curMaxRun
        invariant forall r :: 0 <= r < runId ==> GetPageId(cfg, levelId, r) != pageId
      {
        if GetPageId(cfg, levelId, runId) == pageId {
          found, level, run := true, levelId, runId;
          PageIdInRange(cfg, level, run);
          forall l, r | ValidRun(cfg, l, r) && GetPageId(cfg, l, r) == pageId ensures l == level && r == run {
            PageIdInjective(cfg, l, r, level, run);
          }
          return;
        }
        runId := runId + 1;
      }
      levelId := levelId + 1;
    }
    if 0 <= pageId < cfg.TotalPages() {
      TotalPagesBase(cfg);
      var l, r := PageIdSurjective(cfg, pageId, cfg.maxLevelNum);
      assert false;
    }
  }

  // --- Fill order -----------------------------------------------------
  // SSTableManager::GetAvaiRun fills the bottom level first and each level
  // from the left, so slot numbers count up from the bottom.

  function LevelStart(cfg: Config, level: nat): int {
    cfg.TotalPages() - GetPageId(cfg, level + 1, 0)
  }

  function SlotNo(cfg: Config, level: nat, run: nat): int {
    LevelStart(cfg, level) + run
  }

  lemma PageIdParts(cfg: Config, level: nat, run: nat)
    ensures GetPageId(cfg, level, run) == GetPageId(cfg, level, 0) + run
    ensures GetPageId(cfg, 0, run) == run
  {}

  lemma LevelStarts(cfg: Config, level: nat)
    requires level < cfg.maxLevelNum
    ensures 0 <= LevelStart(cfg, level)
    ensures LevelStart(cfg, level) + GetMaxRun(cfg, level) <= cfg.TotalPages()
    ensures level == 0 ==> LevelStart(cfg, level) + GetMaxRun(cfg, level) == cfg.TotalPages()
    ensures level > 0 ==> LevelStart(cfg, level - 1) == LevelStart(cfg, level) + GetMaxRun(cfg, level)
    ensures level == cfg.maxLevelNum - 1 ==> LevelStart(cfg, level) == 0
  {
    hide GetPageId, GetMaxRun, Config.TotalPages;
    TotalPagesBase(cfg);
    PageBaseStep(cfg, level);
    PageIdParts(cfg, level, GetMaxRun(cfg, level));
    if level + 1 < cfg.maxLevelNum {
      PageBaseMonotone(cfg, level + 1, cfg.maxLevelNum);
      PageIdParts(cfg, level + 1, GetMaxRun(cfg, level + 1));
    }
  }

  // A deeper level, or an earlier run of the same level, has the smaller
  // slot number: slot numbers list the runs in fill order without ties.
  lemma SlotNoOrder(cfg: Config, l1: nat, r1: nat, l2: nat, r2: nat)
    requires ValidRun(cfg, l1, r1) && ValidRun(cfg, l2, r2)
    ensures SlotNo(cfg, l1, r1) < SlotNo(cfg, l2, r2) <==> l2 < l1 || (l1 == l2 && r1 < r2)
    ensures SlotNo(cfg, l1, r1) == SlotNo(cfg, l2, r2) <==> l1 == l2 && r1 == r2
  {
    if l1 < l2 {
      PageBaseStep(cfg, l1);
      PageBaseStep(cfg, l2);
      PageBaseMonotone(cfg, l1, l2);
      if l1 + 1 < l2 { PageBaseMonotone(cfg, l1 + 1, l2); }
    } else if l2 < l1 {
      PageBaseStep(cfg, l1);
      PageBaseStep(cfg, l2);
      PageBaseMonotone(cfg, l2, l1);
      if l2 + 1 < l1 { PageBaseMonotone(cfg, l2 + 1, l1); }
    }
  }
}
