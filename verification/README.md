# Palace server, modelled in Dafny

A model of the core of `palace_server`, a server for the shedding card game
Palace, with proofs about it. The model covers six parts of the server:

- **The rules engine** (`palace_server/src/game.rs`). This includes the
  cards and their derived order, `new_deck` and the deal, and the pile
  legality table. It also covers the Setup step (`choose_three_faceup`), the
  Play step (`make_play`), the burn test (`top_n_cards_same`), turn rotation
  and the public view of a game.
- **The unchecked simulator copy of the engine**
  (`palace_server/src/monte_game.rs`). The Monte Carlo player uses it.
- **The lobby bookkeeping** of `palace_server/src/lib.rs`, without its
  websockets. This covers the lobby registry, the roster and slot map of each
  lobby, and the handlers that create, join, fill with bots, start, kick,
  reconnect, leave and forward turns.
- **The "Low and Steady" computer player**
  (`palace_server/src/ai/low_and_steady.rs`).
- **The move helpers of the Monte Carlo player**
  (`palace_server/src/ai/monty/ai.rs`). These are `remove_item`, the move
  lists of `all_moves_zone` and `all_moves`, and the shape of the guess made
  by `InformationSet::determine`.
- **The reusable bucket list** `MultiVec`
  (`palace_server/src/ai/monty/multivec.rs`).

Every operation is a pure function on immutable data. An engine step returns
the state it leaves behind together with its result. A lobby handler returns
the registry it leaves behind together with its reply.

The shuffles are parameters of the function that uses them: the deck, the
turn numbers and the information-set guess. The random ids, the bot names and
the iteration order of a `HashMap` are parameters too.

Files, one module each:

| file | module | contents |
|---|---|---|
| outcomes.dfy | Outcomes | `Option` and `Result` |
| cards.dfy | Cards | cards, their order, sorting, removal, unions of zones, `new_deck` |
| pile.dfy | Pile | `effective_top_card`, `is_playable_without_pickup`, `top_n_cards_same` |
| game.dfy | Game | the engine's state and steps |
| game_spec.dfy | GameSpec | what the steps promise: error cases, card conservation, pickup, burn, end of game, rotation |
| game_invariant.dfy | GameInvariant | the invariant the engine keeps (sorted zones, finished players) |
| findings.dfy | Findings | the two engine panics, as written |
| monte_game.dfy | MonteGame | the simulator copy and its agreement with the engine |
| multivec.dfy | MultiVec | the bucket list |
| monty_ai.dfy | MontyAi | `remove_item`, move enumeration, `determine` |
| low_and_steady.dfy | LowAndSteady | the Low and Steady player |
| lobby.dfy | LobbyServer | the lobby registry and its handlers |
| lobby_findings.dfy | LobbyFindings | the slot map left by `do_start_game`, as written |

## Model

| member | source | states |
|---|---|---|
| Cards.CardLeIsDerivedOrder | palace_server/src/game.rs:8-56 | The card order compares values first and suits second, in declaration order, as `#[derive(Ord)]` does. Cards with equal keys are equal. |
| Cards.Sort | palace_server/src/game.rs:202-204 | `sort_unstable` returns a sorted permutation of its input. |
| Cards.SortedUnique | palace_server/src/game.rs:202-204 | Two sorted permutations of the same cards are the same sequence, so the unstable sort's result is fully determined. |
| Cards.SortSorted | palace_server/src/game.rs:202-204 | Sorting an already sorted zone leaves it unchanged. |
| Cards.RemoveFirst | palace_server/src/game.rs:276-277 | `Vec::remove` at the found position takes out exactly one copy of a card that is present. A card that is absent changes nothing. |
| Cards.RemoveFirstSorted | palace_server/src/game.rs:272-287 | Removing a card from a sorted zone keeps it sorted. |
| Cards.NewDeckValues | palace_server/src/game.rs:86-96 | `new_deck(n)` has 13·n cards, and each value occurs exactly n times. |
| Cards.NewDeckDistinct | palace_server/src/game.rs:86-96 | For one to four players the deck's cards are pairwise distinct, and the suits that occur are exactly the first n. This is the claim of the test at lines 507-520. |
| Cards.NewDeckRepeatsAboveFour | palace_server/src/game.rs:86-96 | From five players on, the deck holds the Two of Clubs twice. |
| Pile.EffectiveTopCard | palace_server/src/game.rs:389-397 | The effective top is never a Four. It is the value of the topmost card that is not a Four, or Two when there is none. |
| Pile.TableExamples | palace_server/src/game.rs:434-505 | The module's tests: an empty pile reads as Two, a Four on a Three leaves a Three, an Eight may not follow a Seven, and a Seven may follow a Three. |
| Pile.FourIsTransparent | palace_server/src/game.rs:378-397 | A Four laid on the pile changes neither the effective top nor what may be played next. |
| Pile.SameValuePlays | palace_server/src/game.rs:378-386 | A card can always be played on a card of its own value. |
| Pile.PlayableUpwardClosed | palace_server/src/game.rs:378-386 | Away from a Seven, any value at or above a playable value other than Two, Four or Ten is also playable. |
| Pile.PlayableOnSevenDownwardClosed | palace_server/src/game.rs:378-386 | On a Seven, a value lower than a playable one is also playable, except a Ten. |
| Pile.TenPlaysUnlessSeven | palace_server/src/game.rs:378-386 | A Ten is playable exactly when the effective top is not a Seven. |
| Pile.RunCountIsSegmentCount | palace_server/src/game.rs:335-352 | The loop of `top_n_cards_same` counts the cards of the top value in the longest top segment made only of that value and Fours. |
| Game.New | palace_server/src/game.rs:99-125 | The deal gives each player three faceup, three facedown and `HAND_SIZE` = 6 hand cards. It starts in Setup with player 0 to move, an empty pile and nothing cleared. The state is well formed exactly when there is at least one player. |
| GameSpec.NewConservesDeck | palace_server/src/game.rs:99-125 | The dealt zones together with the undealt rest are exactly the cards of `new_deck(n)`. |
| GameInvariant.NewSatisfiesInv | palace_server/src/game.rs:99-125 | A fresh game for two or more players satisfies the engine invariant. |
| Game.SkipOut | palace_server/src/game.rs:359-362 | The first loop of `next_player` stops at the least seat at or after its start that is not finished, and every seat it passes is finished. |
| Game.SkipOutBound | palace_server/src/game.rs:358-370 | `next_player` stays below `num_players` unless every player is finished. |
| GameSpec.NextPlayerIsCyclicSuccessor | palace_server/src/game.rs:358-370 | When someone is not finished, `next_player` is the first unfinished seat after the active one, going round the table. |
| GameSpec.NextPlayerWithoutFinished | palace_server/src/game.rs:358-370 | With nobody finished, the turn goes to the next seat and wraps to 0. |
| Game.ScanAllAccounts | palace_server/src/game.rs:179-193 | The scan cancels exactly the chosen cards that the scanned cards cover, counting multiplicity, and keeps exactly the rest. |
| GameSpec.ScanSucceedsIffContained | palace_server/src/game.rs:179-198 | All three flags are set exactly when the three chosen cards form a sub-multiset of the scanned cards. |
| Game.ChooseThreeFaceup | palace_server/src/game.rs:173-213 | A refused choice returns the "not in hand" error and leaves the game unchanged. Every step keeps the number of players and zones. |
| GameSpec.ChooseThreeFaceupAccepts | palace_server/src/game.rs:173-198 | The choice is accepted exactly when the three cards, counting multiplicity, are among the hand and faceup cards. |
| GameSpec.ChooseThreeFaceupMoves | palace_server/src/game.rs:200-212 | On success the faceup zone is the sorted three and the hand is the sorted rest. Hand and faceup keep their cards together, facedown and other players are untouched, the turn rotates, and the phase becomes Play when the turn comes back to 0. |
| GameInvariant.ChooseThreeFaceupPreservesInv | palace_server/src/game.rs:173-213 | `choose_three_faceup` keeps the engine invariant in either phase. |
| Game.CheckCards | palace_server/src/game.rs:244-270 | The per-card checks pass exactly when every card has the play's value and, outside the facedown zone, is in the zone. Otherwise the first failing card decides the error. It is `MixedValues` exactly when that card has another value, and `CardNotOwned` exactly when it has the right value but the zone lacks it. |
| Game.Validate | palace_server/src/game.rs:240-270 | A play validates exactly when it is non-empty, of one value, and (outside the facedown zone) a sub-multiset of the zone. |
| Game.RemoveAll | palace_server/src/game.rs:272-291 | When the played cards are a sub-multiset of the zone, the removal loop takes out exactly them. |
| GameInvariant.RemoveAllSorted | palace_server/src/game.rs:272-291 | The removal loop keeps a sorted zone sorted. |
| Game.PlayFrom | palace_server/src/game.rs:240-291 | A play from a zone succeeds exactly when it validates. A rejected play leaves the game unchanged, and a single facedown card always plays. |
| Game.MakePlay | palace_server/src/game.rs:216-333 | Every rejection of `make_play` leaves the game unchanged. The number of players and zones never changes. |
| GameSpec.MakePlayAcceptsExactly | palace_server/src/game.rs:216-270 | `make_play` accepts exactly the acceptable plays. From the hand or faceup zone (whichever is first non-empty), that is a non-empty, one-valued sub-multiset no longer than the zone. With both empty, it is the empty list while a facedown card is left. |
| GameSpec.MakePlayIsResolve | palace_server/src/game.rs:272-333 | An accepted play is the pile step applied to the state the played cards have left. |
| GameSpec.TakenCards | palace_server/src/game.rs:272-291 | The zone played from loses exactly the played cards. |
| GameSpec.TakenOthers | palace_server/src/game.rs:272-291 | No other zone, player, pile or cleared card changes when the cards are taken. |
| GameSpec.TakenConserves | palace_server/src/game.rs:272-291 | Taking the cards out and adding the played cards back gives the game's cards before the play. |
| GameSpec.LastCardsIffEmpty | palace_server/src/game.rs:308-311 | A play uses up the player's last cards exactly when all three of their zones are empty after it. |
| GameSpec.FinishSpec | palace_server/src/game.rs:322-332 | A burn moves the pile onto the cleared cards and rotates only for a player who just went out. Otherwise the pile stays and the turn rotates. |
| GameSpec.ResolveConserves | palace_server/src/game.rs:293-332 | Placing, picking up, burning and going out add exactly the played cards to the game and lose none. |
| GameSpec.MakePlayConserves | palace_server/src/game.rs:216-333 | Every `make_play`, accepted or refused, keeps the multiset of all cards in the zones, the pile and the cleared cards. |
| GameSpec.MakePlayPicksUp | palace_server/src/game.rs:303-307 | An unplayable play puts the whole pile, played cards included, into the player's sorted hand, empties the pile and passes the turn. |
| GameSpec.MakePlayBurns | palace_server/src/game.rs:322-327 | A playable Ten, or a play that completes a run of `num_players` equal cards, moves the pile onto the cleared cards. The same player goes again unless they just went out. |
| GameSpec.MakePlayPasses | palace_server/src/game.rs:328-330 | Any other legal play stays on the pile and the turn rotates. |
| GameSpec.MakePlayEndsGame | palace_server/src/game.rs:308-316 | `make_play` returns `Ok(true)` exactly when a legal play uses up the player's last cards with one other player left. Both are then listed as out and the turn does not move. |
| GameSpec.MakePlayZones | palace_server/src/game.rs:272-307 | After an accepted play only the active player's zones have changed. They are those left by taking the cards, except a hand that picked up the pile. |
| GameInvariant.PlayKeepsZones | palace_server/src/game.rs:272-307 | After an accepted play every zone is still sorted, as the `binary_search` ownership test requires. |
| GameInvariant.MakePlayPreservesInv | palace_server/src/game.rs:216-333 | During Play, `make_play` keeps the engine invariant whatever it is given. The invariant: zones are sorted and finished players are listed once. Either the game runs, with exactly the listed players empty-handed and the turn with a player still in, or it is finished, with everyone listed. |
| GameInvariant.TakeTurnPreservesInv | palace_server/src/game.rs:158-171 | `take_turn` keeps the engine invariant whatever it is given. |
| Game.TakeTurn | palace_server/src/game.rs:158-171 | A refused turn leaves the game unchanged, and every turn keeps the number of players and zones. |
| GameInvariant.EndedGameIsFinished | palace_server/src/game.rs:312-316 | In a running game, a play that reports the end leaves the game finished. |
| GameInvariant.NotEndStillRunning | palace_server/src/game.rs:303-332 | A play that does not end the game lists at most one more player as out, so some player is still not listed. |
| GameInvariant.NotEndKeepsRunning | palace_server/src/game.rs:216-332 | From a running game in its Play phase, every play except the one that ends the game leaves the game running: the turn is with a player still in, at least two players are left, and exactly the listed players hold nothing. |
| GameInvariant.FinishedRejectsEveryTurn | palace_server/src/game.rs:216-242 | Once the game is finished, every play and every faceup choice is refused and changes nothing. |
| Game.PublicStateShowsCounts | palace_server/src/game.rs:127-155 | Two games have the same public view exactly when they agree on every faceup card, the sizes of all hands and facedown zones, the pile's size and top card, the number of cleared cards, the phase, the turn and the last play. Every other card stays hidden. |
| Findings.RemoveAllAsWritten | palace_server/src/game.rs:272-291 | The removal loop as written completes exactly when the played cards are a sub-multiset of the zone, and it then agrees with `Game.RemoveAll`. |
| Findings.DuplicatePlayPanics | palace_server/src/game.rs:246-291 | A play naming one owned card twice passes the length and per-card checks, yet the removal loop as written panics. The model rejects it with `DuplicateCard`. |
| Findings.ZoneChoiceAsWritten | palace_server/src/game.rs:218-238 | The zone choice as written panics exactly where the model answers `NoFaceDownCard`. Its errors are those of `Game.MakePlay`. |
| Findings.EmptyPlayPanicsOnlyAfterEnd | palace_server/src/game.rs:216-238 | Under the invariant, the `pop().unwrap()` panic happens exactly for the empty play in a finished game. |
| Findings.EndedGamePanics | palace_server/src/game.rs:312-316 | After the play that ends the game, the empty play reaches the panic as written. |
| MonteGame.Project | palace_server/src/monte_game.rs:8-17 | The simulator's state is the engine's without cleared cards or the last play, and it is well formed exactly when the engine's is. |
| MonteGame.New | palace_server/src/monte_game.rs:20-42 | The simulator's deal gives each player three faceup, three facedown and six hand cards, in Setup, with player 0 to move. |
| MonteGame.NewAgrees | palace_server/src/monte_game.rs:20-42 | Both deals produce the same game from the same deck. |
| MonteGame.ChooseThreeFaceup | palace_server/src/monte_game.rs:55-89 | The unchecked Setup step puts the three named cards face up, sorted, and keeps the number of players and zones. |
| MonteGame.ChooseThreeFaceupAgrees | palace_server/src/monte_game.rs:55-89 | On a choice the engine accepts, the unchecked step gives the engine's result. |
| MonteGame.ChooseThreeFaceupUnchecked | palace_server/src/monte_game.rs:55-89 | On a choice the engine refuses, the unchecked step creates faceup cards that the player never held. |
| MonteGame.AcceptedCanPlay | palace_server/src/monte_game.rs:92-129 | Every play the engine accepts is one the simulator can make without panicking. |
| MonteGame.TakenAgrees | palace_server/src/monte_game.rs:92-129 | Choosing the zone and removing the cards agree with the engine. |
| MonteGame.ResolveAgrees | palace_server/src/monte_game.rs:131-166 | The pile step agrees with the engine's in every case (pickup, end of game, burn, pass). The only difference is that burned cards are dropped. |
| MonteGame.MakePlayAgrees | palace_server/src/monte_game.rs:92-166 | On a play the engine accepts, the simulator reaches the engine's state, minus the cleared cards and the last play, and reports the end of the game alike. |
| MonteGame.TakeTurnAgrees | palace_server/src/monte_game.rs:45-53 | Every turn the engine accepts is one the simulator can take, and it agrees with the engine. |
| MultiVec.New | palace_server/src/ai/monty/multivec.rs:8-13 | `new` starts clean, with no live bucket, and contains no move at all, not even the empty one. After a `reset`, by contrast, a stale empty bucket still matches the empty move (`MultiVec.StaleBucketMatches`). |
| MultiVec.Reset | palace_server/src/ai/monty/multivec.rs:15-20 | `reset` keeps the number of buckets, leaves none live and every stale bucket empty. |
| MultiVec.AddItems | palace_server/src/ai/monty/multivec.rs:22-31 | `add_items` makes one more bucket live and keeps the earlier live buckets. It pushes a new bucket only when every bucket was live. On a clean list, the new live bucket is exactly the items. |
| MultiVec.ContainsItems | palace_server/src/ai/monty/multivec.rs:33-43 | `contains_items` is true exactly when some bucket, stale or live, equals the items. |
| MultiVec.AddAllLive | palace_server/src/ai/monty/multivec.rs:22-31 | On a clean bucket list, the moves added since the last reset are exactly the live buckets, in order. |
| MultiVec.ResetThenAdd | palace_server/src/ai/monty/multivec.rs:15-43 | After `reset` and a sequence of adds, the live buckets are those moves. `contains_items` answers for them and, where a stale bucket survives, for the empty move too. |
| MultiVec.StaleBucketMatches | palace_server/src/ai/monty/multivec.rs:33-43 | After resetting a list that held a move, `contains_items` reports the empty move present although nothing is live. |
| MontyAi.Position | palace_server/src/ai/monty/ai.rs:13 | `position` finds the index of the first element equal to the item, or nothing when there is none. |
| MontyAi.RemoveItem | palace_server/src/ai/monty/ai.rs:12-15 | `remove_item` returns the item and removes one copy when it is present. Otherwise it returns `None` and leaves the vector unchanged. |
| MontyAi.RemoveItemFirst | palace_server/src/ai/monty/ai.rs:12-15 | The copy removed is the first one: putting it back at its position restores the vector, and nothing before it equals the item. |
| MontyAi.RoundsFromSound | palace_server/src/ai/monty/ai.rs:152-164 | Every move from window size `k` on is a window of at least `k` cards that share one value. |
| MontyAi.RoundsFromComplete | palace_server/src/ai/monty/ai.rs:152-164 | Every window of one value, of size at least the current one, is emitted. |
| MontyAi.AllMovesZoneWindows | palace_server/src/ai/monty/ai.rs:151-165 | The moves of `all_moves_zone` are exactly the non-empty windows of the zone whose cards share one value. |
| MontyAi.AllMovesZoneStops | palace_server/src/ai/monty/ai.rs:152-164 | Once a size has no window of one value, no move is that long or longer, so the loop may stop there. |
| MontyAi.PairsSound | palace_server/src/ai/monty/ai.rs:171 | Every pair is the cards at two increasing positions. |
| MontyAi.PairsComplete | palace_server/src/ai/monty/ai.rs:171 | The cards at any two increasing positions form a pair. |
| MontyAi.TriplesSound | palace_server/src/ai/monty/ai.rs:171-176 | Every Setup move is the cards at three increasing positions of the hand. |
| MontyAi.TriplesComplete | palace_server/src/ai/monty/ai.rs:171-176 | The cards at any three increasing positions of the hand form a Setup move. |
| MontyAi.MovesAccepted | palace_server/src/ai/monty/ai.rs:167-192 | For a state of the engine that keeps its invariant, every move `all_moves` lists is a turn the engine accepts. No move is listed once everyone is out. |
| MontyAi.PlayMoveAccepted | palace_server/src/ai/monty/ai.rs:179-191 | A Play move (a window of the hand, else of the faceup cards, else the empty move) is a play the engine accepts. |
| MontyAi.RunningHasMoves | palace_server/src/ai/monty/ai.rs:179-191 | While play runs, `all_moves` lists at least one move. |
| MontyAi.Fill | palace_server/src/ai/monty/ai.rs:79-89 | A filled hand keeps its length. It holds its known cards plus the first unseen cards, one per unknown card. |
| MontyAi.FillHands | palace_server/src/ai/monty/ai.rs:77-92 | Each guessed hand is sorted, as long as the known hand, and holds its known cards. |
| MontyAi.FillHandsCards | palace_server/src/ai/monty/ai.rs:77-92 | The guessed hands hold the known cards plus exactly the first unseen cards, one per unknown card. |
| MontyAi.DealDown | palace_server/src/ai/monty/ai.rs:95-104 | Each guessed facedown zone has the known number of cards, and together they are the next unseen cards. |
| MontyAi.Determine | palace_server/src/ai/monty/ai.rs:66-116 | The guess copies turn, phase, faceup zones and pile, and nobody is out. Each hand is a sorted guess holding its known cards, and the facedown zones have the known sizes. |
| MontyAi.DetermineCards | palace_server/src/ai/monty/ai.rs:77-104 | The guess neither invents nor loses a card. Its hands and facedown zones together hold the known hand cards plus exactly the first `Needed` unseen cards. |
| LowAndSteady.FirstPlayable | palace_server/src/ai/low_and_steady.rs:23-24 | The first loop finds the first playable position, or none when nothing from the start on is playable. |
| LowAndSteady.RunEnd | palace_server/src/ai/low_and_steady.rs:25-32 | The inner loop ends at the first position whose value differs, and every card passed has the value. |
| LowAndSteady.LowestPlayableCards | palace_server/src/ai/low_and_steady.rs:22-37 | The result is the lowest playable run: the first playable card with the equal cards that directly follow it. When nothing is playable, it is the zone's first card. |
| LowAndSteady.LowestRunUnique | palace_server/src/ai/low_and_steady.rs:22-35 | The lowest playable run is unique, so the contract above determines the play. |
| LowAndSteady.LowestPlayableCardsShape | palace_server/src/ai/low_and_steady.rs:22-37 | The play is a non-empty slice of the zone of one value. It avoids a pickup exactly when some card of the zone would. |
| LowAndSteady.ChooseThreeFaceupAccepted | palace_server/src/ai/low_and_steady.rs:64-66 | When the player knows the faceup cards it was dealt, the engine accepts its Setup choice. |
| LowAndSteady.MakePlayAccepted | palace_server/src/ai/low_and_steady.rs:68-75 | When the player's copies match the engine, the engine accepts its play. |
| LowAndSteady.StartMatchesDeal | palace_server/src/ai/low_and_steady.rs:77-92 | At the start of a game, the server tells the player its hand and seat and then the public view (`palace_server/src/lib.rs` lines 522-530). After that, the player's copies hold exactly its dealt hand, its faceup cards and the empty pile. When its seat moves first, the engine accepts its Setup choice. |
| LowAndSteady.OnHandUpdate | palace_server/src/ai/low_and_steady.rs:94-98 | The hand copy becomes a rearrangement of exactly the new hand. |
| LowAndSteady.PileTracked | palace_server/src/ai/low_and_steady.rs:77-87 | If the pile copy matches the engine's pile before an accepted play, the update after it keeps them matching. |
| LowAndSteady.PileOutcome | palace_server/src/game.rs:293-330 | After an accepted play, the pile is either empty or the old pile with the played cards on top. |
| LobbyServer.NextPublicId | palace_server/src/lib.rs:69-75 | `next_public_id` is the smallest slot that nobody holds. |
| LobbyServer.NextPublicIdBound | palace_server/src/lib.rs:69-75 | The free slot is at most the number of slots taken, so the u8 counter cannot wrap below 256 slots. |
| LobbyServer.FreedSlotReused | palace_server/tests/lib.rs:83-156 | A slot freed while every lower slot stays taken is the next one handed out. |
| LobbyServer.AddThenRemove | palace_server/src/lib.rs:767-829 | `remove_player` undoes `add_player` for a newcomer put in a free slot. |
| LobbyServer.RemoveThenAdd | palace_server/src/lib.rs:767-829 | In a lobby that keeps the invariant, `add_player` puts back exactly the player `remove_player` took out, in their old slot. |
| LobbyServer.AddPlayerKeepsInv | palace_server/src/lib.rs:767-794 | A newcomer with a fresh id, seated in the free slot, keeps the lobby invariant and grows the roster by one. |
| LobbyServer.RemovePlayerKeepsInv | palace_server/src/lib.rs:796-829 | A non-owner leaving a lobby with no game keeps the lobby invariant. The roster and the slot map each shrink by one. |
| LobbyServer.DisconnectOldPlayer | palace_server/src/lib.rs:692-723 | Only the lobby the connection belonged to changes. |
| LobbyServer.DisconnectEffect | palace_server/src/lib.rs:692-723 | Before the game, an owner leaving closes the lobby and anyone else is removed alone. During the game, the player keeps their seat, marked disconnected. |
| LobbyServer.DisconnectKeepsServerInv | palace_server/src/lib.rs:692-723 | Leaving keeps every lobby's invariant. |
| LobbyServer.UpdateConnectedEffect | palace_server/src/lib.rs:679-717 | Taking on a new identity keeps every lobby's invariant. A player the connection stood for in a lobby without a game is gone from that lobby afterwards, or the lobby is closed when they owned it. |
| LobbyServer.NewLobbyRejects | palace_server/src/lib.rs:350-400 | `do_new_lobby` rejects, in order, a capacity below two, an empty lobby name and an empty player name, leaving the registry unchanged. Otherwise it succeeds. |
| LobbyServer.NewLobbyCreates | palace_server/src/lib.rs:350-400 | On success the new lobby holds only its owner, connected, in slot 0. The connection becomes that owner, and every lobby keeps the invariant. |
| LobbyServer.DoJoinLobby | palace_server/src/lib.rs:402-468 | A refused join leaves the registry unchanged. |
| LobbyServer.FullAtCapacity | palace_server/src/lib.rs:437-439 | The `as u8` cast in the capacity test never wraps for a lobby that keeps the invariant. |
| LobbyServer.JoinLobbyRejects | palace_server/src/lib.rs:402-468 | `do_join_lobby` rejects, in order, an empty name, an unknown lobby, a game in progress, a wrong password and a full lobby. |
| LobbyServer.JoinLobbyAdmits | palace_server/src/lib.rs:402-468 | Otherwise the newcomer takes the lowest free slot, connected, and the roster grows by one without exceeding the capacity. |
| LobbyServer.JoinLobbyKeepsInv | palace_server/src/lib.rs:402-468 | Joining keeps every lobby's invariant. |
| LobbyServer.AddAisKeepsInv | palace_server/src/lib.rs:329-342 | Bots with fresh ids, added to a lobby with room for them, keep the invariant. The roster grows by exactly the number of bots, each an AI player. |
| LobbyServer.AddAisKeepsOthers | palace_server/src/lib.rs:329-342 | Bots never displace an existing player. |
| LobbyServer.RequestAiRejects | palace_server/src/lib.rs:315-348 | `do_request_ai` rejects, in order, zero bots, an unknown lobby, a non-owner, a request beyond the capacity and a game in progress, leaving the registry unchanged. |
| LobbyServer.RequestAiAdds | palace_server/src/lib.rs:315-348 | Otherwise exactly `num_ai` AI players join, the roster stays within the capacity, and every lobby keeps the invariant. |
| LobbyServer.AssignedPlayers | palace_server/src/lib.rs:497-499 | The assignment loop seats each listed player at their turn number and leaves every other player unchanged. |
| LobbyServer.AssignedSlots | palace_server/src/lib.rs:497-499 | The assignment loop records each listed player in the slot of their turn number, on top of the slots already there. |
| LobbyServer.StartedSeating | palace_server/src/lib.rs:485-499 | The start with the slot map rebuilt seats every player at their shuffled turn number and records each in exactly that slot. It deals a game for the roster, and the lobby keeps the invariant. This agrees with the source whenever no slot at or above the roster size was taken (`LobbyFindings.AsWrittenWithoutGap`). |
| LobbyServer.AssignedSeating | palace_server/src/lib.rs:491-499 | The seating built on an empty slot map agrees with the roster, has one slot per player, and uses exactly the turn numbers below the roster size. |
| LobbyServer.StartGameRejects | palace_server/src/lib.rs:470-538 | `do_start_game` rejects, in order, an unknown lobby, a game in progress, a non-owner and a roster below two, leaving the registry unchanged. |
| LobbyServer.StartGameSeats | palace_server/src/lib.rs:485-499 | A started game is a fresh deal for the whole roster. In the model's start, which rebuilds the slot map, the turn numbers are a permutation of `0..n`, each recorded in its own slot and in no other. |
| LobbyServer.StartGameKeepsInv | palace_server/src/lib.rs:470-538 | The model's start, which rebuilds the slot map, keeps every lobby's invariant. |
| LobbyServer.TurnCheck | palace_server/src/lib.rs:542-551 | The shared turn checks pass exactly when the lobby exists, its game has started, the caller is in the lobby and the caller's turn number is the active player. |
| LobbyServer.ChooseFaceupTurns | palace_server/src/lib.rs:540-567 | A caller whose turn number is not the active player gets `NotYourTurn`, and the game is not touched. An accepted call replaces only that lobby's game, by the engine's result. |
| LobbyServer.MakePlayTurns | palace_server/src/lib.rs:569-596 | The same holds for plays. |
| LobbyServer.ChooseFaceupKeepsInv | palace_server/src/lib.rs:540-567 | Choosing faceup cards keeps every lobby's invariant. |
| LobbyServer.MakePlayKeepsInv | palace_server/src/lib.rs:569-596 | A play keeps every lobby's invariant while the game is in its Play phase. |
| LobbyServer.DoReconnect | palace_server/src/lib.rs:598-635 | A reconnect succeeds exactly for a player of the lobby who was not kicked, and it connects only that player. |
| LobbyServer.ReconnectKeepsInv | palace_server/src/lib.rs:598-635 | Reconnecting keeps every lobby's invariant. |
| LobbyServer.DoKickPlayer | palace_server/src/lib.rs:637-676 | A kick changes no lobby but the one named, and no lobby appears or disappears. |
| LobbyServer.KickRejects | palace_server/src/lib.rs:637-676 | `do_kick_player` rejects, in order, slot 0, an unknown lobby, a non-owner and an empty slot, and during the game an AI. The registry is left unchanged. |
| LobbyServer.KickBeforeGame | palace_server/src/lib.rs:663-666 | Before the game, a kick removes the non-owner in the slot from both maps and frees the slot. |
| LobbyServer.KickBeforeGameKeepsInv | palace_server/src/lib.rs:663-666 | A kick before the game keeps every lobby's invariant. |
| LobbyServer.KickDuringGame | palace_server/src/lib.rs:648-662 | During the game, a kick leaves the seating and the roster alone, and the kicked player's reconnect then fails with `PlayerKicked`. |
| LobbyServer.KickDuringGameKeepsInv | palace_server/src/lib.rs:648-662 | A kick during the game keeps every lobby's invariant. |
| LobbyServer.KickedSlotGoesToNextAi | palace_server/tests/lib.rs:83-156 | After a kick before the game, with every lower slot taken, the next bot requested sits in the kicked slot. |
| LobbyFindings.StartedAsWritten | palace_server/src/lib.rs:495-499 | The start as written records every player at their new turn number but keeps every earlier slot that no new turn number overwrites. |
| LobbyFindings.AsWrittenWithoutGap | palace_server/src/lib.rs:491-499 | When every slot taken before the game lies below the roster size, the start as written leaves exactly the lobby the rebuilt start leaves. |
| LobbyFindings.AsWrittenAgreesIff | palace_server/src/lib.rs:491-499 | The start as written keeps slots and seats in agreement exactly when no slot at or above the roster size was taken before the game. |
| LobbyFindings.TwoSeatLobbyReached | palace_server/src/lib.rs:350-468 | A lobby with slots 0 and 2 taken and slot 1 free is reachable: the owner creates it, two players join and the owner kicks slot 1. |
| LobbyFindings.StaleSlotKicksWrongPlayer | palace_server/src/lib.rs:495-499 | Started as written, that lobby's slot map disagrees with the roster, and kicking slot 2 kicks the guest who now sits in seat 0. |
| LobbyFindings.RebuiltSlotsKickNobody | palace_server/src/lib.rs:495-499 | With the slot map rebuilt at the start, slots and seats agree, and the same kick finds nobody. |

## Left out

- Websockets, JSON messages and every event sent to clients are left out, along with `on_message`, `handle_message`, `report_make_play` and `report_choose_faceup`. They are I/O. A handler is modelled as its effect on the registry and its reply.
- Background threads and time are left out. This covers the AFK kick, the pruning of empty lobbies, the AI polling loop `ai_play`, `last_turn_start` and the creation time of a lobby. They are timing and concurrency.
- Spectators are left out: a spectator leaving changes nothing in the model.
- Randomness is passed in. The deck shuffle, the turn-number shuffle, the lobby and player ids, the bot names and the shuffle in `determine` are parameters. The freshness of random `u128` ids is an assumption of the lemmas that need it.
- The roster's `HashMap` iteration order is the parameter `order` of the start-game functions.
- The hex (de)serialisation of ids is left out.
- The tree search (`ismcts`, `ucb1`) is left out: it uses floating point and random rollouts. The information-set bookkeeping of the Monte Carlo player (`on_game_state_update`, `get_unseen_cards_as_vec`) is left out: it is made of `unwrap` and `debug_assert`. `palace_server/src/ai/monty.rs` is an older copy of that player and is not part of this model.
- `sort_zone_low_to_high_specials_in_back` is left out as a function. Its comparison is not a consistent order, since two Fours each compare greater than the other. The rearranged zone is the parameter `arranged`, any permutation of the zone.
- LowAndSteady.MakePlay: an empty hand and faceup zone make the source unwrap `None`. The model requires a non-empty zone, because the server never asks the player to play then.
- LowAndSteady.LowestPlayableCards: requires a non-empty zone, for the same `unwrap`.
- The `as u8`/`as u16` casts of `public_state`, `num_players` and turn numbers are left out. The model uses unbounded counts, since with at most 255 players none of them wraps. The casts in the lobby capacity test and in `next_public_id` are proved not to wrap (`LobbyServer.FullAtCapacity`, `LobbyServer.NextPublicIdBound`).
- `binary_search` is modelled as membership, and `Vec::remove` at its index as removing the first copy. In the sorted zones that the invariant guarantees during Play, equal cards sit side by side, so both give the same sequence.
- Game.MakePlay: on an unsorted zone, `binary_search` can miss a card that is there, and the removal loop can then panic. `do_make_play` (`palace_server/src/lib.rs` lines 569-580) forwards a play with no phase check, so this can happen during Setup, when the dealt hands are unsorted. For example, with the hand [K♣, Q♣, J♣, 9♣, 8♣, 3♣] the source refuses the play [3♣]. The model accepts every owned card, which is what the search gives on the sorted zones of the Play phase.
- LobbyServer.MakePlayTurns: inherits that Setup-phase difference from `Game.MakePlay` for plays sent before every player has chosen faceup cards.
- The Setup branch of `all_moves` calls `push_to_last_bucket` and `finalize_last_bucket`, which `multivec.rs` does not define. It is modelled as the list of three-card combinations of the hand, without the `MultiVec`.
- `lib.rs` refers to a `Phase::Complete` that `game.rs` does not define, and it matches `make_play`'s result against `Ok(())`. The model follows `game.rs`: two phases, with the end of the game reported by `Ok(true)` and not passed on in the lobby's reply.
- `lib.rs` calls the engine's `choose_three_faceup` and `make_play` directly, without the phase dispatch of `take_turn`. The model does the same.
- LobbyServer.MakePlayKeepsInv: proved only for a game in its Play phase. A Setup-phase play sent straight to `make_play` can meet the unsorted hands of the deal, on which the engine invariant is not claimed.
- LobbyServer.StartedSeating: stated for the start with the slot map rebuilt from empty. The source inserts on top of the old `players_by_turn_num`, and after a kick that leaves a slot at or above the roster size, the stale slot breaks the agreement of slots and seats (`LobbyFindings.AsWrittenAgreesIff`, third finding below). Without such a slot, the two starts agree (`LobbyFindings.AsWrittenWithoutGap`).
- LobbyServer.StartGameSeats: "in no other slot" holds for the rebuilt start that `LobbyServer.DoStartGame` models, not for the source's start after a kick that leaves a slot gap. See `LobbyServer.StartedSeating` above.
- LobbyServer.StartGameKeepsInv: the lobby invariant is kept by the rebuilt start. The start as written breaks it exactly when a slot at or above the roster size was taken (`LobbyFindings.AsWrittenAgreesIff`). Every in-game lobby fact of the model (turns, kicks, reconnects) is stated for the rebuilt slot map.
- LobbyServer.KickDuringGame: requires that every slot leads to a player, which is what the `unwrap` at line 650 of `palace_server/src/lib.rs` relies on. A registry that keeps the invariant satisfies it (`LobbyServer.InvLeads`).
- MontyAi.Determine: requires at least `Needed` unseen cards. With fewer, the source indexes past the end of the slice.
- The list of lobby players that `do_join_lobby` sends back is left out, as a message.
- `get_hand` is left out: it is a plain index.

## Findings

| source | as written | input that shows it | evidently intended | confidence | as-written member | corrected member |
|---|---|---|---|---|---|---|
| palace_server/src/game.rs:246-291 | The ownership check tests each played card on its own, and the removal loop then calls `binary_search(..).unwrap()` once per named card. | A hand holding one Three of Clubs and a Four of Clubs, and the play [Three of Clubs, Three of Clubs]. Both checks pass, and the second removal panics. | A card named more often than the zone holds it is refused with an error. | high; not executed | Findings.DuplicatePlayPanics | GameSpec.MakePlayAcceptsExactly |
| palace_server/src/game.rs:216-238 | After the play that ends the game, the turn stays with a player who holds nothing. An empty play from them reaches `pop().unwrap()` on an empty facedown zone. | Any game in which a play returns `Ok(true)`, followed by `make_play([])` (the lobby forwards it, since the player's turn number is still the active one). | A finished game refuses every further turn without panicking. | medium; not executed | Findings.EndedGamePanics | GameInvariant.FinishedRejectsEveryTurn |
| palace_server/src/lib.rs:495-499 | The start inserts each player at their new turn number into `players_by_turn_num` without clearing the entries from before the game. | Owner 10 creates a lobby, 11 and 12 join into slots 1 and 2, and slot 1 is kicked. The start gives 10 turn 1 and 12 turn 0, so slot 2 still names 12. Kicking slot 2 then kicks player 12. | The slot map lists exactly the seats of the game, so a kick of a seat the game lacks finds nobody. | high; not executed | LobbyFindings.StaleSlotKicksWrongPlayer | LobbyFindings.RebuiltSlotsKickNobody |
