# A model of dropout-resilient secure aggregation

This project models the arithmetic and the protocol of a secure-aggregation system:
microcontroller clients written in C, which mask their model updates pairwise and share a
secret so that a dropped client's masks can be recovered, and a Python server, which
reconstructs secrets and averages updates. It proves what these pieces guarantee, on all inputs
and over all runs, and where a guarantee fails it proves the exact condition under which it holds.

`dafny verify dfyconfig.toml` checks the whole project.

| module | models | main results |
|---|---|---|
| Field, Poly | GF(3329), coefficient lists | 3329 is prime; Fermat's little theorem; inversion; roots, interpolation and uniqueness |
| Shamir | secret sharing as mathematics | the exact condition for reconstruction, over all id lists and thresholds; the error wrong shares cause; perfect secrecy below the threshold |
| Baselines | experiments/baselines.py | any max(t, 2) generated shares reconstruct, for exactly up to 3329 shares; fewer than t hide the secret over all draws, for exactly up to 3328 shares |
| ShamirRecovery | host_server/shamir_recovery.py | the server's reconstruction, byte layout and Barrett form, whose shares are field elements exactly up to id 45 |
| ShamirC, ShareGeneration | src/pqc_engine/shamir.c | Barrett in 32 bits and its exact limit; share generation and clearing of the workspace |
| ShareHiding | src/pqc_engine/shamir.c | over all draws the client can make, the exact condition under which too few shares say nothing about its secret |
| EndToEnd | client and server together | from which shares, and in which rounds, the server gets back every secret; what it gets otherwise |
| Masks | src/federated/mask_protocol.c | masks, when they cancel over sets of clients, the exact error of an aggregate and of dropout recovery |
| FedAvg | host_server/baseline_server.py | the weighted average modulo 3329 and in exactly which rounds it preserves agreement |
| StateMachine, RoundHistory | src/federated/state_machine.c | what holds in every run of messages and timeouts; chunk accounting; which states can complete |
| PacketCodec | src/network/packet_codec.c | encoding and decoding are inverse in both directions; which bytes the MAC covers, and which it does not |
| Hkdf | src/pqc_engine/hkdf.c and the Python twin | at which lengths they compute HKDF-Expand of RFC 5869, section 2.3, and agree |
| Chunker | host_server/flower_server.py | splitting and reassembling a model |
| Montgomery | src/pqc_engine/ntt_backend.c | Montgomery reduction and the butterfly pair |

## What turned out sharper than expected, or false

- Share generation in C is exact at the ids 0 to 64 except 58, and at no other 16-bit id. So
  all shares of a round are exact if and only if there are at most 57 (`ShamirC.ExactIds`,
  `ShamirC.ExactRounds`). The client allocates 16.
- The server gets back every canonical secret from a choice of C shares if and only if every chosen
  id is one of these, or the threshold is one; so a round of n shares always works if and only
  if n is at most 57 or the threshold is one (`EndToEnd.ChoiceCondition`, `EndToEnd.RoundCondition`).
- A C secret element of 3329 or more does not come back: the server returns it reduced
  (`EndToEnd.SecretBytesRecovered`). The client passes 64 raw key-derivation bytes as elements.
- Nor is it hidden: too few C shares at exact ids conceal a secret, over all draws, if and only if
  none of its words is above 3329 (`ShareHiding.ConcealmentCondition`).
- Reconstruction without id checks works for the id lists that are pairwise incongruent
  modulo 3329, or have exactly one id congruent to zero. Other lists lose some secret at every
  threshold above the number of ids alone on their residue. Below that they recover just when the
  ids satisfy t equations, which can happen (`Shamir.RecoveryCondition`, `Shamir.HarmlessCollision`).
- Python's Barrett form leaves the field: a share can be negative exactly at the ids from 46 on,
  the first being -1 (`ShamirRecovery.FieldIds`, `ShamirRecovery.BarrettLeavesField`).
  Reconstruction still recovers the secret, because the value stays in its residue class.
- Masks of a set of clients add up to the disagreement between the two ends of each pair. The
  code keys each stream by the drawing client's own id, so agreement is a hypothesis here: masks
  cancel if and only if the derivation gives congruent draws for both ids
  (`Masks.KeyedPairCancels`, `Masks.AgreementNeeded`), and it need not (`Masks.AgreementNotGiven`).
- The weighted average preserves a value all clients agree on if and only if 3329 does not divide
  the divisor but does divide the number of completed clients that report no samples next to
  clients that do (`FedAvg.Consensus`). With one such client the average of 1 and 1 is 2
  (`FedAvg.WrongAverage`).
- HKDF expansion in C answers lengths 8161 to 8192, where its counter octet wraps to zero and
  Python raises. At every other length it conforms to the standard and agrees with Python
  (`Hkdf.CLengths`, `Hkdf.CounterWraps`).
- Messages are accepted only from client id 0 or the client's own id, also the pairwise key
  messages, so a client's peer list never holds any other id (`RoundHistory.PeersOfARun`).
- A round announced with a zero threshold, or one above the number of other clients, can never
  complete (`RoundHistory.CompletionPossible`).
- MASK_SETUP copies a 1184-byte public key into a 32-byte field (`src/federated/state_machine.c:133`
  and `:139`, `src/core_rtos/protocol_types.h:162`). What that does to the fields behind it is
  outside the model; every run that gets past MASK_SETUP makes the copy
  (`RoundHistory.PeersNeedKeys`).

## Conventions

Several source files carry unresolved merge-conflict markers; their `HEAD` side is modelled. Machine words are
integers with explicit wrap-around and truncation; shifts and masks are divisions and remainders.
Library calls (HMAC, key derivation, the mask generator, the random source, key encapsulation) are
parameters about which two things are assumed: the length of a digest, and that initialising HMAC
again re-arms the key set once, as `src/pqc_engine/hkdf.c:35-42` relies on. Loops that a file repeats
are methods here, each proved against a function. `hide` statements only keep definitions out of a
proof.

StateMachine and RoundHistory model the client whose fields are large enough for what is copied into
them: the key copy above, and the share arrays filled on completion, which hold sixteen shares.
Results about runs past MASK_SETUP hold of the actual client only as far as that copy leaves its
other fields alone.

Where the documents and the code differ, the code is followed. The round parameters are read low
byte first (the message format document says big-endian), the MAC sits between header and payload
(the document puts it at the end), the client goes from CLIENT_COMPLETION straight to
MASK_RECOVERY, never through AGGREGATION, and DROPOUT_DETECTION has no way out.
The C client names two message types its own header does not declare; the model uses the values
the server gives those names.

## Model

| member | source | states |
|---|---|---|
| Field.Prime | host_server/shamir_recovery.py:12 | no number from 2 to 3328 divides the field modulus |
| Field.Euclid | host_server/shamir_recovery.py:51-65 | a product that 3329 divides has a factor it divides |
| Field.Binomial | host_server/shamir_recovery.py:25-26 | the binomial theorem, from which Fermat's little theorem follows |
| Field.Fermat | host_server/shamir_recovery.py:25-26 | a^3328 is 1 modulo 3329 for every integer a not divisible by 3329 |
| Field.ModInvCorrect | host_server/shamir_recovery.py:25-26 | exponentiation by p-2 inverts exactly the invertible integers and maps the rest to zero |
| Poly.UniqueFit | experiments/baselines.py:130-137 | a canonical coefficient list is determined by its values at as many distinct points |
| Poly.DenominatorInvertible | host_server/shamir_recovery.py:51-65 | a Lagrange denominator has an inverse exactly when its id shares no residue with another |
| Poly.InterpolantFits | experiments/baselines.py:146-157 | the Lagrange polynomial through k distinct points takes the given values |
| Poly.Interpolation | experiments/baselines.py:146-157 | the Lagrange form equals, at every point, any polynomial of length at most k fitting the points |
| Shamir.Reconstruct | experiments/baselines.py:143-159 | k shares of a polynomial of length at most k, on a recoverable id list, give its constant term, for any representatives of the values |
| Shamir.CollisionLoses | experiments/baselines.py:149-155 | on ids with none zero modulo 3329, a polynomial with nonzero secret, one longer than the number of ids alone on their residue, comes back as zero |
| Shamir.MomentCondition | experiments/baselines.py:139-159 | at any threshold t an id list recovers every secret if and only if it reconstructs the t monomials |
| Shamir.RecoveryCondition | experiments/baselines.py:139-159 | for every id list and every threshold up to its length: recovery of all secrets if and only if the list is recoverable, or the threshold is at most the number of ids alone on their residue and the ids satisfy the monomial equations |
| Shamir.HarmlessCollision | experiments/baselines.py:139-159 | a list with two ids on one residue that still recovers every secret, at threshold one |
| Shamir.ErrorTerm | experiments/baselines.py:143-159 | on a recoverable list any values give the secret plus the weighted sum of their errors |
| Shamir.OneWrongShare | experiments/baselines.py:143-159 | with all other shares right, the secret comes back if and only if the remaining share is right modulo 3329 |
| Shamir.Secrecy | experiments/baselines.py:126-137 | fewer shares than coefficients leave every secret possible if and only if no id is zero modulo 3329 |
| Shamir.PerfectSecrecy | experiments/baselines.py:126-137 | with t-1 shares every secret is explained by exactly one canonical polynomial of length t |
| Baselines.GenerateShares | experiments/baselines.py:120-137 | the error cases in order, and otherwise share i is the value at i + 1 of secret + draw(0) x + draw(1) x^2 + ..., modulo 3329 |
| Baselines.CoefficientsDrawn | experiments/baselines.py:127-128 | coefficient i is draw i - 1, and there are t of them |
| Baselines.EvaluateReduced | experiments/baselines.py:133-135 | Horner's rule with reduction at every step gives the polynomial's residue |
| Baselines.ReconstructSecret | experiments/baselines.py:139-159 | an error below two shares, otherwise the Lagrange form at zero |
| Baselines.AnySharesReconstruct | experiments/baselines.py:120-159 | any max(t, 2) or more generated shares, in any order, reconstruct the secret |
| Baselines.ShareCountLimit | experiments/baselines.py:131-136 | every choice of ids from 1..n recovers at every threshold up to its size if and only if n is at most 3329 |
| Baselines.FewSharesHide | experiments/baselines.py:120-137 | fewer than t of up to 3328 generated shares leave every secret possible |
| Baselines.DrawsHide | experiments/baselines.py:120-137 | fewer than t of up to 3328 generated shares are generated for every other secret too, with other draws; with t - 1 shares those draws are unique |
| Baselines.HidingLimit | experiments/baselines.py:120-137 | that holds for all secrets and choices if and only if there are fewer than 3329 shares |
| ShamirRecovery.BarrettCong | host_server/shamir_recovery.py:18-23 | the reduction keeps the residue class of every integer |
| ShamirRecovery.BarrettExact | host_server/shamir_recovery.py:18-23 | it equals the remainder exactly below a stated bound on quotient and remainder |
| ShamirRecovery.EvaluatePolynomial | host_server/shamir_recovery.py:28-32 | the loop computes the Barrett form of Horner's rule |
| ShamirRecovery.EvalBarrettCong | host_server/shamir_recovery.py:28-32 | the evaluation is congruent to the polynomial's value, for all coefficients and points |
| ShamirRecovery.EvalBarrettWindow | host_server/shamir_recovery.py:28-32 | for one-byte ids and canonical coefficients it stays in [-5, 3328] |
| ShamirRecovery.FieldMeansExact | host_server/shamir_recovery.py:28-32 | a share is a field element if and only if it is the polynomial's canonical value |
| ShamirRecovery.FieldIds | host_server/shamir_recovery.py:18-32 | every share of a natural id is a field element, for all canonical coefficients, if and only if the id is at most 45 |
| ShamirRecovery.BarrettLeavesField | host_server/shamir_recovery.py:18-32 | the first failing id: a share at 46 is -1 instead of 3328 |
| ShamirRecovery.BarrettSharesReconstruct | host_server/shamir_recovery.py:28-67 | shares evaluated by the Barrett form still reconstruct the secret |
| ShamirRecovery.ChecksMeaning | host_server/shamir_recovery.py:34-44 | which id lists are refused and why: fewer than two, a zero, a repetition, in this order |
| ShamirRecovery.SetSize | host_server/shamir_recovery.py:43-44 | a list has as many different elements as elements exactly when it has no duplicates |
| ShamirRecovery.LagrangeFraction | host_server/shamir_recovery.py:52-62 | the inner loop computes the residues of numerator and denominator |
| ShamirRecovery.ReconstructSecret | host_server/shamir_recovery.py:34-67 | the id checks in order, otherwise the Lagrange form at zero |
| ShamirRecovery.DecodeEncode | host_server/shamir_recovery.py:79-87 | decoding an element of little-endian encoded words returns the word |
| ShamirRecovery.ElementBytes | host_server/shamir_recovery.py:76-89 | bytes 2e and 2e + 1 of the answer, low byte first, are the Lagrange value of the words the shares hold there |
| ShamirRecovery.BytesAccepted | host_server/shamir_recovery.py:69-89 | success takes two shares, no zero or repeated id, and values of at least 64 bytes, the first exactly 64 |
| ShamirRecovery.ReconstructSecretBytes | host_server/shamir_recovery.py:69-89 | which error each malformed list gives, otherwise the encoding of the 32 reconstructed elements |
| ShamirC.BarrettExact | src/pqc_engine/shamir.c:34-38 | for every product of a field element and a 16-bit word: exact, and even congruent, if and only if the 32-bit product does not wrap and the argument is not one below a multiple of 3329 from 153133 on |
| ShamirC.BarrettLimit | src/pqc_engine/shamir.c:34-38 | exact up to 153132, and 153133 is the first failure |
| ShamirC.AddSubField | src/pqc_engine/shamir.c:44-53 | addition and subtraction are those of the field on field elements, and inverse to each other |
| ShamirC.MulField | src/pqc_engine/shamir.c:55-57 | a field element times any 16-bit word is multiplied as in the field if and only if the product is one of those |
| ShamirC.EvaluatePolynomial | src/pqc_engine/shamir.c:72-78 | the downward loop computes the word-arithmetic Horner form of a coefficient segment |
| ShamirC.EvalExact | src/pqc_engine/shamir.c:72-78 | at exact ids it is the canonical value of the polynomial |
| ShamirC.EvalAnyConstant | src/pqc_engine/shamir.c:72-78 | with a constant term up to 62207 it stays in the right residue class |
| ShamirC.LineKept | src/pqc_engine/shamir.c:55-78 | a polynomial r * x keeps its residue class at an id if and only if that product is safe |
| ShamirC.SlopeSpares | src/pqc_engine/shamir.c:55-78 | the line an inexact one-byte id loses is right at every smaller and every exact id |
| ShamirC.ExactIds | src/pqc_engine/shamir.c:55-78 | at every 16-bit id evaluation is exact for all canonical coefficients if and only if the id is at most 64 and not 58; otherwise a named line loses its residue class |
| ShamirC.ExactRounds | src/pqc_engine/shamir.c:125-130 | all of n shares are exact if and only if n is at most 57 |
| ShareGeneration.GenerateRandomCoefficients | src/pqc_engine/shamir.c:80-95 | on success cell k is the two bytes of draw k, low byte first, modulo 3329; on failure the source's code and every written cell zero |
| ShareGeneration.FillWorkspace | src/pqc_engine/shamir.c:105-123 | every segment filled, or the first failing draw reported with all segments begun wiped |
| ShareGeneration.EvaluateShares | src/pqc_engine/shamir.c:125-130 | ids 1..n and every element's polynomial value for each |
| ShareGeneration.ShareIs | src/pqc_engine/shamir.c:105-130 | a share is the value of the polynomial whose coefficients are the element's secret word and its own t - 1 draws, from number e * (t - 1) on |
| ShareGeneration.ShamirShare | src/pqc_engine/shamir.c:97-138 | rejected arguments touch nothing; success writes all shares; every coefficient cell is zero on return in all cases |
| ShareGeneration.FailureCovered | src/pqc_engine/shamir.c:105-123 | the cells wiped on failure lie inside the workspace and reach the failing element |
| ShareHiding.DrawsConceal | src/pqc_engine/shamir.c:80-130 | fewer than t shares at exact ids, of a secret of words up to 3329: every secret of field elements gives the same shares with other succeeding draws |
| ShareHiding.WordShows | src/pqc_engine/shamir.c:105-130 | a word above 3329 gives, with some draws, shares that no secret of field elements can give |
| ShareHiding.ConcealmentCondition | src/pqc_engine/shamir.c:80-130 | some but fewer than t shares at exact ids conceal a secret for all draws if and only if none of its words is above 3329 |
| EndToEnd.ElementSent | host_server/shamir_recovery.py:77-82 | for any chosen ids the server's element is the Lagrange value of the client's share values |
| EndToEnd.ElementError | host_server/shamir_recovery.py:77-82 | for any chosen ids the server's element is the secret plus the weighted sum of the client's errors |
| EndToEnd.ElementRecovered | host_server/shamir_recovery.py:77-82 | from ids the client is exact at, or at threshold one, the server gets each element up to 62207 modulo 3329 |
| EndToEnd.SecretBytesRecovered | host_server/shamir_recovery.py:69-89 | from such ids the server's 64 bytes are the client's secret if and only if all elements are field elements |
| EndToEnd.LineLoses | src/pqc_engine/shamir.c:125-130 | with an inexact id among any chosen ids, and a threshold of two or more, some polynomial with secret zero comes back as another secret |
| EndToEnd.ChoiceCondition | src/pqc_engine/shamir.c:125-130 | every canonical secret comes back from the chosen shares, for all draws, if and only if all chosen ids are exact or the threshold is one |
| EndToEnd.RoundCondition | src/pqc_engine/shamir.c:97-138 | a round of n shares returns every canonical secret from every choice if and only if n is at most 57 or the threshold is one |
| EndToEnd.ShareThenReconstruct | src/pqc_engine/shamir.c:97-138 | both programs in sequence: the server answers for any chosen ids, and from exact ones with the secret if and only if it is canonical |
| Masks.ModQCanonical | src/federated/mask_protocol.c:13-19 | the sign fix-up of C's remainder gives the canonical residue of any integer |
| Masks.PeerOrderIrrelevant | src/federated/mask_protocol.c:53-75 | the signed sum is the same for every order of the peers |
| Masks.PeerAdds | src/federated/mask_protocol.c:53-75 | a peer adds to a cell, modulo 3329, plus or minus the generator's output under the seed derived for this client, round and chunk: plus toward larger ids |
| Masks.MasksRepeat | src/federated/mask_protocol.c:55-57 | masks of two chunks or two rounds agree at a cell if and only if the generator's outputs under the two derived seeds do |
| Masks.PairwiseContext.DerivePairwiseSeeds | src/federated/mask_protocol.c:28-48 | an error without peers, otherwise for peer i bytes 32i to 32i + 31 of the secrets as its secret, and the seed derived from it, the two ids in ascending order and the round |
| Masks.SeedsAgree | src/federated/mask_protocol.c:31-43 | two clients sharing a secret derive the same seed for each other |
| Masks.PairwiseContext.GenerateChunkMask | src/federated/mask_protocol.c:50-82 | each cell is the signed sum of all peer streams modulo 3329, with one peer its own stream up to sign; oversized chunks are refused untouched |
| Masks.PairwiseContext.MaskChunk | src/federated/state_machine.c:198-214 | a streamed chunk is replaced by the upload Masks speaks of, or left alone if it is too large |
| Masks.ApplyMask | src/federated/mask_protocol.c:84-90 | each cell is the residue of input plus mask, also in place |
| Masks.RemoveMask | src/federated/mask_protocol.c:92-98 | each cell is the residue of input minus mask, also in place |
| Masks.RemoveAfterApply | src/federated/mask_protocol.c:84-98 | removing an applied mask returns the input if and only if it was canonical |
| Masks.TotalIsPairGap | protocol/protocol.md:65-76 | all masks of a set of clients add up to the disagreement of its pairs |
| Masks.MasksCancel | protocol/protocol.md:55-85 | with agreeing streams all masks cancel, and survivors are left with minus the dropped clients' masks toward them |
| Masks.PairCancels | protocol/protocol.md:55-63 | two clients' masks cancel if and only if their streams agree modulo 3329 |
| Masks.AgreementNeeded | protocol/protocol.md:55-63 | the masks of all subsets of a set of clients cancel if and only if both ends of every pair agree modulo 3329 |
| Masks.AggregateError | src/federated/mask_protocol.c:50-90 | the uploads add up to the values plus the pair disagreement, whatever the peer orders |
| Masks.DropoutError | protocol/protocol.md:78-85 | survivors' uploads plus the dropped clients' masks toward them give the plaintext sum plus the disagreement of the pairs with a survivor, with no hypothesis on the streams |
| Masks.DropoutRecovery | protocol/protocol.md:78-85 | and so the plaintext sum if every pair with a survivor agrees |
| Masks.KeyedPairCancels | src/federated/mask_protocol.c:53-75 | two clients holding the same seed: their masks cancel if and only if the derivation gives congruent draws for both ids |
| Masks.AgreementNotGiven | src/federated/mask_protocol.c:55-57 | shared seeds alone do not decide that: a derivation for which two masks do not cancel |
| FedAvg.TotalWeight | host_server/baseline_server.py:594-599 | the divisor: positive sample counts, or the number of completed clients if there are none |
| FedAvg.Accumulate | host_server/baseline_server.py:600-614 | every cell is the reduced weighted sum, or an index error exactly when a contributed chunk is too long |
| FedAvg.ComputeFedavg | host_server/baseline_server.py:593-620 | every cell is the mean of its weighted sum; the two error cases |
| FedAvg.ContributionAdds | host_server/baseline_server.py:600-614 | a contribution adds its cell times the sample count of its client, at least one, if that client completed, and nothing otherwise |
| FedAvg.DivisorAdds | host_server/baseline_server.py:594-599 | the divisor client by client: positive sample counts of completed contributors, or their number if there are none |
| FedAvg.NobodyCompleted | host_server/baseline_server.py:593-620 | if no contributor completed, every cell is zero |
| FedAvg.MeanDivides | host_server/baseline_server.py:615-619 | result times divisor is the weighted sum modulo 3329, or the result is zero when 3329 divides the divisor |
| FedAvg.EntryOrderIrrelevant | host_server/baseline_server.py:605-614 | the order of the contributions changes no sum |
| FedAvg.WeightAgainstTotal | host_server/baseline_server.py:594-609 | the weights exceed the divisor by the completed clients without samples, unless nobody has any |
| FedAvg.Consensus | host_server/baseline_server.py:593-620 | for all contributions of the same clients, a value all contributing clients agree on is the average if and only if the round is balanced; if not, all sending ones already fails |
| FedAvg.WrongAverage | host_server/baseline_server.py:593-620 | an unbalanced round: two clients, one without samples, both send 1, and the average is 2 |
| StateMachine.Client.constructor | src/federated/state_machine.c:43-55 | the initial context |
| StateMachine.Client.MoveTo | src/federated/state_machine.c:57-66 | a transition sets state and clock |
| StateMachine.Client.HandleRoundInit | src/federated/state_machine.c:68-94 | the round parameters from the payload bytes, the sizes low byte first, in the client's integer widths |
| StateMachine.RoundAnnounced | src/federated/state_machine.c:68-94 | an announcement of clients, threshold, chunk size and model size is stored as announced: one share fewer than clients, and the chunks the model takes |
| StateMachine.Client.HandleKeySetup | src/federated/state_machine.c:96-122 | key generation and decapsulation outcomes |
| StateMachine.Client.HandleMaskSetup | src/federated/state_machine.c:124-183 | with key copies kept in their field: peers are added once, up to sixteen; confirmation needs one |
| StateMachine.Client.HandleStreamChunk | src/federated/state_machine.c:191-225 | which chunks are accepted and how the counters advance |
| StateMachine.Client.HandleCompletion | src/federated/state_machine.c:227-276 | completion needs a threshold the share count meets |
| StateMachine.Client.ProcessMessage | src/federated/state_machine.c:348-387 | with copies kept in their fields: filtering and dispatch, the whole new context and the status |
| StateMachine.SuccessConditions | src/federated/state_machine.c:348-385 | exactly which messages succeed, in every state |
| StateMachine.Refused | src/federated/state_machine.c:348-385 | a message that does not succeed changes only the clock, and one for another round or from another sender nothing |
| StateMachine.Errors | src/federated/state_machine.c:68-276 | the status of every refused message |
| StateMachine.Effects | src/federated/state_machine.c:57-276 | what a successful message changes and what it leaves |
| StateMachine.TimesOutAfter | src/federated/state_machine.c:322-330 | a sweep times a client out if and only if more than the limit has passed, modulo 2^32, since the last message for it |
| StateMachine.Client.Sweep | src/federated/state_machine.c:299-307 | one context against the deadline, with a wrapping clock |
| StateMachine.Registry.Register | src/federated/state_machine.c:310-320 | contexts beyond the sixteenth are dropped |
| StateMachine.Registry.CheckTimeouts | src/federated/state_machine.c:322-344 | every registered context takes the timeout step once, even if registered twice |
| RoundHistory.RoundOrder | src/federated/state_machine.c:348-385 | in every run the accepted messages, in the order of the chain, determine the state; completion takes all nine |
| RoundHistory.OnePlaceAtATime | src/federated/state_machine.c:57-66 | an event moves the state by at most one place, and only with success, or times it out |
| RoundHistory.Absorbed | src/federated/state_machine.c:382-385 | DROPOUT_DETECTION and ROUND_COMPLETE are never left |
| RoundHistory.DropoutExactly | src/federated/state_machine.c:322-344 | a run ends in DROPOUT_DETECTION if and only if some sweep found the deadline passed |
| RoundHistory.PeersOfARun | src/federated/state_machine.c:124-177 | with key copies kept in their field: peers are only the ids 0 and the client's own; training needs one; completion a valid threshold |
| RoundHistory.PeersNeedKeys | src/federated/state_machine.c:127-143 | a client has peers if and only if a 1184-byte key has been stored, so no run gets past MASK_SETUP without that copy |
| RoundHistory.AcceptedEffect | src/federated/state_machine.c:191-220 | an accepted chunk: which it can be, and how index, byte count and final flag advance |
| RoundHistory.ChunkAccounting | src/federated/state_machine.c:191-220 | with key copies kept in their field: the i-th accepted chunk has sequence number i, lengths are full until the final flag, and the counters are the count and the sum, in their widths |
| RoundHistory.FullUntilLast | src/federated/state_machine.c:194-220 | before the last announced chunk every accepted chunk is full |
| RoundHistory.AllChunks | src/federated/state_machine.c:194-220 | after all announced chunks, one or more, the byte count is between total minus one and total chunks; a single chunk is full |
| RoundHistory.StreamMatchesModel | src/federated/state_machine.c:78-86 | in every run, with key copies kept in their field: after the announced number of chunks, one or more, the byte count is within one chunk of the model size |
| RoundHistory.CompletionPossible | src/federated/state_machine.c:348-385 | with key copies kept in their field: some continuation completes the round if and only if the client is on the chain and its threshold can be met |
| PacketCodec.EncodeHeader | src/network/packet_codec.c:32-51 | the sixteen bytes, each field at its place and most significant byte first, and no other write |
| PacketCodec.HeaderLayout | src/network/packet_codec.c:32-51 | the same of the header format itself |
| PacketCodec.DecodeHeader | src/network/packet_codec.c:53-63 | the parsed header |
| PacketCodec.BuildMacData | src/network/packet_codec.c:11-30 | the authenticated header bytes followed by the payload |
| PacketCodec.CtMemcmp | src/network/packet_codec.c:75-81 | the or-ed differences are zero if and only if the buffers are equal |
| PacketCodec.ParseEncoded | src/network/packet_codec.c:32-63 | parsing an encoded header returns it, whatever follows |
| PacketCodec.EncodeParsed | src/network/packet_codec.c:32-63 | encoding a parsed header returns its sixteen bytes |
| PacketCodec.EncodeMessage | src/network/packet_codec.c:92-110 | bytes 16 to 47 are the MAC of the first twelve bytes and the payload, the payload follows, and nothing is written beyond |
| PacketCodec.DecodeMessage | src/network/packet_codec.c:112-130 | success exactly if the input is complete and bytes 16 to 47 are the MAC of the first twelve and the whole announced payload; otherwise which error, and no write |
| PacketCodec.AcceptedBytes | src/network/packet_codec.c:112-130 | the same of the set of accepted messages |
| PacketCodec.TagBinds | src/network/packet_codec.c:11-30 | two accepted messages with one key and tag have the same first twelve bytes and payload, or exhibit a collision of the MAC |
| PacketCodec.NotCovered | src/network/packet_codec.c:11-30 | the reserved field and bytes after the payload can be replaced in an accepted message |
| PacketCodec.EncodedAccepted | src/network/packet_codec.c:92-130 | an encoded message is accepted and decodes to what was encoded, also with trailing bytes |
| PacketCodec.AcceptedReencodes | src/network/packet_codec.c:92-130 | re-encoding a decoded message gives exactly the bytes decoded |
| Hkdf.ExpandC | src/pqc_engine/hkdf.c:22-58 | refuses keys other than 32 octets and lengths above 8192 and then writes nothing; else each 32 octets are the HMAC of the 32 before, the info and the wrapping counter |
| Hkdf.OutputChains | src/pqc_engine/hkdf.c:37-56 | the same of any output, its last short block included |
| Hkdf.WrappedIsStandard | src/pqc_engine/hkdf.c:37-56 | up to 8160 octets the wrapping counter gives exactly HKDF-Expand |
| Hkdf.BeyondStandard | src/pqc_engine/hkdf.c:37-56 | from 8161 to 8192 octets the output is the longest standard one and then a block with counter zero |
| Hkdf.ExpandPython | host_server/shamir_recovery.py:96-105 | the same output for lengths up to 8160, an error beyond |
| Hkdf.CLengths | src/pqc_engine/hkdf.c:22-58 | the C routine conforms to the standard, and agrees with the Python one, if and only if the length is at most 8160 or above 8192 |
| Hkdf.CounterWraps | src/pqc_engine/hkdf.c:26-42 | at 8161 octets C answers with an octet from counter zero, and Python raises |
| Hkdf.ExpandPrefix | src/pqc_engine/hkdf.c:37-56 | a shorter output is a prefix of a longer one |
| Chunker.ModelToChunks | host_server/flower_server.py:50-64 | chunk i is the packed i-th run of the zero-padded values; the two error cases |
| Chunker.CellOfChunk | host_server/flower_server.py:50-64 | in bytes: chunk i exists exactly if its first element does; two bytes a cell, high byte first, hold the low sixteen bits of its element, and zero past the end |
| Chunker.ConcatAt | host_server/flower_server.py:51 | element j of the m-th array follows all elements of the arrays before it |
| Chunker.ChunksToModel | host_server/flower_server.py:66-81 | runs of the unpacked values in the reference shapes, or which error |
| Chunker.ShapedKeepsOrder | host_server/flower_server.py:72-81 | the reassembled arrays are the flat values in order, none left out, in the reference shapes |
| Chunker.SizeIsProduct | host_server/flower_server.py:75 | an array takes as many values as the product of its dimensions |
| Chunker.ValuesOfPresent | host_server/flower_server.py:66-71 | a missing chunk leaves no hole: a chunk's values follow those of the chunks present before it |
| Chunker.UnpackInverts | host_server/flower_server.py:62-71 | unpacking packed 16-bit values returns them |
| Chunker.RoundTrip | host_server/flower_server.py:50-81 | reassembly gives the narrowed model, and the model itself if and only if its values fit 16 bits |
| Montgomery.LowHalfVanishes | src/pqc_engine/ntt_backend.c:51-53 | the division by 2^16 is exact, for every 32-bit argument |
| Montgomery.ReduceResidue | src/pqc_engine/ntt_backend.c:51-55 | for arguments below 3329 * 2^16 the result is a field element congruent to a / 2^16 |
| Montgomery.ReduceUnique | src/pqc_engine/ntt_backend.c:51-55 | and the only such field element |
| Montgomery.NttButterfly | src/pqc_engine/ntt_backend.c:57-64 | the two cells become field elements congruent to a + b * zeta / 2^16 and a - b * zeta / 2^16, and no other cell changes |
| Montgomery.InttButterfly | src/pqc_engine/ntt_backend.c:66-74 | the two cells become a + b and a field element congruent to (a - b) * zeta / 2^16 |
| Montgomery.ButterflyRoundTrip | src/pqc_engine/ntt_backend.c:57-74 | inverse after forward doubles both cells, for all field elements, if and only if the twiddles multiply to 2^32 |

## Left out

- Null pointers: references here are never null, so the branches that return an error for a null argument are not modelled.
- ML-KEM, X25519, AES, SHA-256 and HMAC themselves, and the byte layout of key-derivation labels: foreign libraries, taken as parameters.
- C inversion and reconstruction (`gf3329_inv`, `shamir_reconstruct` and its byte form): their products leave the range where the 32-bit reduction is exact, so reconstruction is proved for the Python code.
- `shamir_share_bytes`: its pointer cast changes the layout of the ids; the element-level routine is modelled.
- Masks.DropoutRecovery: adds the dropped clients' masks as the protocol document describes; the server's own recovery step passes 32-byte values where 64 are needed and is not modelled.
- Masks.PairwiseContext.DerivePairwiseSeeds: the error return of mask_protocol.c:44 is not modelled; the derivation fails only on null pointers, which cannot occur there.
- Masks.PairwiseContext.GenerateChunkMask: the same for mask_protocol.c:58; clearing of the local stream and seed buffers is not observable here.
- Masks.PairwiseContext.MaskChunk: requires a buffer for a whole chunk also when the last one is short, because the code masks that many cells.
- StateMachine.Client.HandleMaskSetup: only peer ids are kept; the key bytes stored for them, and the copy running past their field, are not. The error return of state_machine.c:175 is taken for an empty peer list only; its other causes are null pointers.
- StateMachine.Client.HandleStreamChunk: the masking of the payload in place is `Masks.PairwiseContext.MaskChunk`; here only its refusal of large chunks appears; the other causes of the error return of state_machine.c:208 are null pointers.
- StateMachine.Client.HandleCompletion: deriving the secret and sharing it are one outcome each, sending the shares is left out, and so are more than sixteen shares overrunning the local arrays.
- RoundHistory.PeersOfARun: past MASK_SETUP, holds only as far as key copies stay in their field, as said under Conventions.
- RoundHistory.ChunkAccounting: likewise.
- RoundHistory.StreamMatchesModel: likewise.
- RoundHistory.CompletionPossible: likewise.
- StateMachine.Client.ProcessMessage: requires round parameters of eight bytes with a nonzero chunk size, because the code divides by it.
- StateMachine.Registry.CheckTimeouts: the notification encoded on a timeout is left out, and the timer's own callback, which reads the clock anew for every context, is the same step with that reading.
- `state_machine_handle_round_complete` and the busy loop of local training: never called by the dispatcher, and without effect.
- PacketCodec.DecodeMessage: requires an announced payload of at most 1024 bytes, the capacity of the buffer the MAC input is assembled in.
- PacketCodec.EncodeMessage: has the same limit for the same reason.
- FedAvg.ComputeFedavg: dictionaries are lists of entries in insertion order; a missing inner chunk is skipped as in the code.
- Chunker.ChunksToModel: the conversion to the reference's element type is the identity, so floating-point models are not covered.
- The full transforms of ntt_backend.c: the twiddle index runs past its table and one product exceeds 32 bits.
- `aggregate_fit` in flower_server.py: its weight table is keyed by sample count, so equal counts collapse.
- The byte-wise sharing in baselines.py: one byte cannot hold a field element.
- DMA drivers, transport, impairment, tasks, telemetry, emulation and experiment runners: input, output and hardware.
- The stream and buffered aggregators: they repeat the mask arithmetic in weaker form.
