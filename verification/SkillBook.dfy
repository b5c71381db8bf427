/** Learned skills and their change log (silkroad-agent/src/comp/skill.rs). */
module SkillBooks {
  import opened Wrappers
  import opened Changes

  type Levels = map<nat, nat>

  datatype LearnedSkill = LearnedSkill(group: nat, level: nat)

  function MergeSkills(a: LearnedSkill, b: LearnedSkill): MergeResult<LearnedSkill> {
    if b.group == a.group then Merged(b) else Unchanged(a, b)
  }

  /** The upsert that writes a skill: one level per group. */
  function SkillChanges(): Algebra<Levels, LearnedSkill, nat> {
    Algebra(MergeSkills,
            (levels: Levels, s: LearnedSkill) => Some(levels[s.group := s.level]),
            (s: LearnedSkill) => s.group)
  }

  lemma SkillLaws()
    ensures Laws(SkillChanges())
  {
    var A := SkillChanges();
    forall s: Levels, a: LearnedSkill, b: LearnedSkill | a.group != b.group ensures Two(A, s, a, b) == Two(A, s, b, a) {
      assert s[a.group := a.level][b.group := b.level] == s[b.group := b.level][a.group := a.level];
    }
    forall s: Levels, a: LearnedSkill, b: LearnedSkill | a.group == b.group ensures SoundOnKey(A, s, a, b) {
      assert s[a.group := a.level][b.group := b.level] == s[b.group := b.level];
    }
  }

  class SkillBook {
    var skills: Levels
    var newSkills: seq<LearnedSkill>
    /** The skills as they were when the log was last handed out. */
    ghost var written: Levels

    /** The log is all that separates the written skills from the current ones. */
    ghost predicate Valid()
      reads this
    {
      Replay(SkillChanges(), written, newSkills) == Some(skills)
    }

    constructor (skills: Levels)
      ensures Valid() && this.skills == skills && newSkills == [] && written == skills
    {
      this.skills := skills;
      newSkills := [];
      written := skills;
    }

    method LearnSkill(group: nat, level: nat)
      requires Valid()
      modifies this
      ensures Valid() && written == old(written)
      ensures skills == old(skills)[group := level] && newSkills == old(newSkills) + [LearnedSkill(group, level)]
    {
      ReplayConcat(SkillChanges(), written, newSkills, [LearnedSkill(group, level)]);
      ReplayPair(SkillChanges(), skills, LearnedSkill(group, level), LearnedSkill(group, level));
      skills := skills[group := level];
      newSkills := newSkills + [LearnedSkill(group, level)];
    }

    method TakeChanges() returns (taken: seq<LearnedSkill>)
      requires Valid()
      modifies this
      ensures Valid() && newSkills == [] && skills == old(skills) && written == skills
      ensures Replay(SkillChanges(), old(written), taken) == Some(skills)
    {
      taken := newSkills;
      newSkills := [];
      written := skills;
    }
  }

  lemma {:induction false} SkillsReplay(levels: Levels, log: seq<LearnedSkill>)
    ensures Replay(SkillChanges(), levels, log).Some?
    decreases log
  {
    if log != [] {
      SkillsReplay(levels[log[0].group := log[0].level], log[1..]);
    }
  }

  /** What is written for any log of learned skills: at most one entry per group, and - since the
      periodic writer runs the entries side by side - the right levels in whatever order they are
      applied. */
  lemma SkillsWrittenInAnyOrder(levels: Levels, log: seq<LearnedSkill>, written: seq<LearnedSkill>)
    requires multiset(written) == multiset(Optimized(MergeSkills, log))
    ensures DistinctKeys(SkillChanges(), Optimized(MergeSkills, log))
    ensures Replay(SkillChanges(), levels, written) == Replay(SkillChanges(), levels, log)
  {
    var A := SkillChanges();
    var out := Optimized(MergeSkills, log);
    SkillLaws();
    SkillsReplay(levels, log);
    OptimizedIsSound(A, levels, log);
    assert DistinctKeys(A, out) by {
      forall i, j | 0 <= i < j < |out| ensures A.key(out[i]) != A.key(out[j]) {
        assert !A.merge(out[i], out[j]).Incompatible?;
      }
    }
    OrderIsIrrelevant(A, levels, out, written);
  }
}
