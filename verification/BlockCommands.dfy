/** What becomes of the feed commands over all runs of the block creator, in terms of what arrived. */
module BlockCommands {
  import opened AdfsLayout
  import opened BlockCreator
  import opened BlockCreatorRuns
  import InMemDb

  predicate Registers(e: Event) {
    e.Command? && e.cmd.RegisterNewAssetFeed?
  }

  predicate Deletes(e: Event) {
    e.Command? && e.cmd.DeleteAssetFeed?
  }

  /** How many registrations wait for the next block: they pile up to 32, and every slot end takes them along. */
  function RegistrationsWaiting(events: seq<Event>): nat {
    if events == [] then 0
    else
      var before, e := RegistrationsWaiting(events[..|events| - 1]), events[|events| - 1];
      if e.SlotEnd? then 0 else if Registers(e) && before < 32 then before + 1 else before
  }

  function DeletionsWaiting(events: seq<Event>): nat {
    if events == [] then 0
    else
      var before, e := DeletionsWaiting(events[..|events| - 1]), events[|events| - 1];
      if e.SlotEnd? then 0 else if Deletes(e) && before < 32 then before + 1 else before
  }

  /** The registrations received in order, less those that arrived while 32 were waiting. */
  function RegistrationsTaken(events: seq<Event>): seq<InMemDb.BlockFeedConfig> {
    if events == [] then []
    else
      var front, e := events[..|events| - 1], events[|events| - 1];
      RegistrationsTaken(front) + if Registers(e) && RegistrationsWaiting(front) < 32 then [e.cmd.config] else []
  }

  function DeletionsTaken(events: seq<Event>): seq<EncodedFeedId> {
    if events == [] then []
    else
      var front, e := events[..|events| - 1], events[|events| - 1];
      DeletionsTaken(front) + if Deletes(e) && DeletionsWaiting(front) < 32 then [e.cmd.id] else []
  }

  function EmittedRegistrations(blocks: seq<EmittedBlock>): seq<InMemDb.BlockFeedConfig> {
    if blocks == [] then [] else EmittedRegistrations(blocks[..|blocks| - 1]) + blocks[|blocks| - 1].newFeeds
  }

  function EmittedDeletions(blocks: seq<EmittedBlock>): seq<EncodedFeedId> {
    if blocks == [] then [] else EmittedDeletions(blocks[..|blocks| - 1]) + blocks[|blocks| - 1].toDelete
  }

  /** The commands of all blocks in order, followed by the waiting ones, are those taken. */
  ghost predicate Accounted(b: Books, events: seq<Event>) {
    && EmittedRegistrations(b.blocks) + b.state.newFeeds == RegistrationsTaken(events)
    && EmittedDeletions(b.blocks) + b.state.toDelete == DeletionsTaken(events)
    && |b.state.newFeeds| == RegistrationsWaiting(events)
    && |b.state.toDelete| == DeletionsWaiting(events)
  }

  lemma EmittedCommandsSnoc(blocks: seq<EmittedBlock>, block: EmittedBlock)
    ensures EmittedRegistrations(blocks + [block]) == EmittedRegistrations(blocks) + block.newFeeds
    ensures EmittedDeletions(blocks + [block]) == EmittedDeletions(blocks) + block.toDelete
  {
    assert (blocks + [block])[..|blocks|] == blocks;
  }

  lemma SlotEndAccounts(max: nat, b: Books, front: seq<Event>, events: seq<Event>)
    requires events != [] && events[..|events| - 1] == front && events[|events| - 1].SlotEnd? && Accounted(b, front)
    ensures Accounted(Step(max, b, SlotEnd), events)
  {
    if b.state.HasData() {
      EmittedCommandsSnoc(b.blocks, Emission(b.state));
    }
  }

  lemma CommandAccounts(max: nat, b: Books, front: seq<Event>, events: seq<Event>)
    requires events != [] && events[..|events| - 1] == front && events[|events| - 1].Command? && Accounted(b, front)
    ensures Accounted(Step(max, b, events[|events| - 1]), events)
  {
  }

  /** Over every run, for each kind: the commands of all emitted blocks, in order, followed by the waiting ones,
      are exactly those received, in order, less those that arrived while 32 of the kind were waiting. */
  lemma {:induction false} CommandsAreAccounted(max: nat, events: seq<Event>)
    ensures Accounted(Run(max, events), events)
  {
    if events == [] {
    } else {
      var front, e := events[..|events| - 1], events[|events| - 1];
      CommandsAreAccounted(max, front);
      match e
      case SlotEnd => SlotEndAccounts(max, Run(max, front), front, events);
      case Command(_) => CommandAccounts(max, Run(max, front), front, events);
      case Update(_, _) =>
    }
  }

  /** A slot end emits exactly one block if an update or a command is waiting, and none otherwise; the block has all
      that was pending, and afterwards no command is waiting. */
  lemma SlotEndEmits(max: nat, events: seq<Event>)
    ensures var before, after := Run(max, events), Run(max, events + [SlotEnd]);
            && after.state.newFeeds == [] && after.state.toDelete == []
            && (before.state.updates == map[] && before.state.newFeeds == [] && before.state.toDelete == [] ==>
                  after.blocks == before.blocks)
            && (before.state.updates != map[] || before.state.newFeeds != [] || before.state.toDelete != [] ==>
                  after.blocks == before.blocks + [EmittedBlock(Ordered(before.state.updates), before.state.newFeeds, before.state.toDelete)])
  {
    assert (events + [SlotEnd])[..|events|] == events;
  }
}
