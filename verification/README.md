# Verified core of the OpenStack operator

This project models the parts of the operator in which state is carried from one reconcile to the next, and proves
what they promise. `dafny verify dfyconfig.toml` checks all of it.

Each part has a specification on values, the code in its own imperative form proved equal to that specification, and
theorems about the specification, most of them over every run of passes and of the parties around them.

* **CA bundle** (`PemText`, `CaBundle`, `CaReconcile`, `CaRuns`, `CaOutcome`). PEM text is a sequence of lines: boundary lines,
  lines of data, and other lines. RFC 7468 puts the block format in section 2 and explanatory text in section 5.2; like
  the Go decoder, the model skips text before a boundary and counts headers, which make the parser stop. A pass reads
  its own earlier output, folds in the CAs of four issuers, the user's secret, the mirror registries and the trust
  store of the operator image, and writes the result. Any step can fail; the user's secret comes in any order; the
  clock is read anew for every certificate. `CaOutcome` says in terms of the inputs alone when a pass goes through, what
  it then leaves in the two files, and what it lists.
* **Data-plane rollout** (`Rollout`, `RolloutRuns`, `RolloutCompletion`, `RolloutOutcome`). A pass of `Deploy` over the list of
  services, between which jobs appear, fail and succeed. The state has the conditions, the jobs, the recorded images
  and a history of launches. Runs are infinite sequences of passes and job steps. `RolloutOutcome` says in terms of the
  jobs and the answers of the environment where a pass stops, when it fails, and what it leaves.
* **Certificate packing and publication** (`StringOrder`, `Decimal`, `CertPacking`, `CertGrouping`,
  `CertPublication`). A next-fit packer over sorted keys taken by threes, a publisher that changes one secret a pass,
  and the reader that mounts as many secrets as the label of the first one says.
* **Service deduplication** (`ServiceDedupe`, `NodeSetDedupe`). The loop for one nodeset, and the fold over nodesets
  that hands on the list of global services. The append at line 209 takes the parameter, not the accumulator, and so
  keeps only the last new global service; the model does the same.
* **Image recording and the update gate** (`ImageProtocol`, `OvnImages`, `GaleraImages`, `ImageGate`,
  `GateHistories`). Three parties: this operator
  patches a spec, the API server counts generations, a sub-operator reports the generation it observed and whether
  it is Ready. The world keeps a history of the specs and of the reports.
* **Running deployments** (`DataplaneSearch`). The cached search for a service type, against the plain one.
* **Address reservation** (`Ipam`). Nodes refer to the backing arrays of their network lists. The methods work on
  Dafny arrays on the heap, the specification on a map from references to contents.

## What turned out not to hold

The code is modelled as it is. Where it does not do what its comments or its callers expect, a lemma shows how, and
another one gives the exact condition under which it does.

* The keys of two nodes `n` and `n-d` interleave when sorted, and the triples then mix the nodes
  (`CertGrouping.DashNamesInterleave`). A continuation of a name is harmless if it sorts off the `-ca.crt`, `-tls.crt`
  and `-tls.key` ends; the proper prefix alone is no obstacle (`CertGrouping.AlignedIffClearNames`).
* The packing loop indexes past the end exactly when two keys are left over, and drops one exactly when one is
  (`CertPacking.PackingPartitions`). The caller only ever hands it threes.
* A nodeset without nodes publishes nothing and says it is done; the reader still mounts an older secret
  (`CertPublication.EmptyNodesetLeavesStaleCertificates`). In every run the reader is right after such a pass exactly
  when there are certificates (`CertPublication.RunReaderIsRightIffData`).
* A list that introduces two global services places the first of them on two nodesets
  (`NodeSetDedupe.TwoGlobalsArePlacedTwice`). Exactly when none is placed twice:
  `NodeSetDedupe.PlacedOnceIffForgottenLose`, and for one list `NodeSetDedupe.OverridePlacesOnceIffOneGlobal`.
* A lookup error on a service that was never launched blocks the deployment for good
  (`RolloutCompletion.LookupErrorMakesOrphans`, `RolloutCompletion.OrphanStaysForever`). A fair clean run completes
  exactly when there is no such service (`RolloutCompletion.CompletesIffNoOrphan`).
* The runner image of one service stays for the next one of the same pass when there is a version that names none
  (`RolloutRuns.RunnerImageLeaks`). Exactly when a launch then gets the right image: `RolloutRuns.RunnerImageIsOwnIff`.
* Redis records an image on the strength of an old report (`ImageProtocol.UncheckedPassRecordsTooEarly`). In every run a
  recording is right exactly when no image has changed since the observed generation
  (`ImageProtocol.UncheckedRunIsRightIffUnchanged`).
* A pass with OVN disabled and a template that names clusters first clears and then records the images, so that the
  gate can pass later without any report (`OvnImages.MatchWithoutAnyReport`). A match rests on reports exactly when OVN
  was enabled in the pass that recorded it (`OvnImages.MatchMeansReported`).
* One ready Galera instance records the image for all of them (`GaleraImages.OneReadyInstanceIsEnough`). Over all runs a
  recorded image was found Ready at every instance exactly when there is at most one
  (`GaleraImages.ImageHoldsForAllIffOneInstance`).
* A service that has recorded nothing passes the gate when the version has nothing to compare
  (`ImageGate.UnrecordedServicePasses`).
* All nodes that inherit the template's networks reserve the address of the first one that the map yields
  (`Ipam.InheritorsShareOneAddress`, `Ipam.InheritedAddressFollowsTheOrder`). Exactly when a node gets its own:
  `Ipam.OwnAddressIffUnshared`.
* An IPSet that has not reported yet is not waited for: only a Ready condition that is False is
  (`Ipam.NewHostIsNotWaitedFor`). A nodeset that counts as ready has all its addresses exactly when each of its hosts had
  an IPSet before the pass that had reported (`Ipam.ReadyIsTrueIffReported`).

## Model

| member | source | states |
|---|---|---|
| `PemText.DecodeEncode` | internal/openstack/ca.go:797-866 | an encoded certificate block decodes to its kind and bytes, whatever explanatory line stands in front, and leaves the rest of the text |
| `PemText.DecodeCountsHeaders` | internal/openstack/ca.go:797-812 | lines with a colon behind the BEGIN line are counted as headers and do not count as data |
| `PemText.DecodePassesOver` | internal/openstack/ca.go:797-812 | a block whose END line has another kind, or whose body is not base64, is none: decoding goes on behind it |
| `CaBundle.ExpiredIffUnderThirtySeconds` | internal/openstack/ca.go:771-773 | the test on rounded minutes rejects a certificate exactly when less than thirty seconds of its life remain |
| `CaBundle.ExpiredForever` | internal/openstack/ca.go:771-848 | a certificate rejected at one time is rejected at every later time |
| `CaBundle.AbsorbAddsTheUnexpired` | internal/openstack/ca.go:812-846 | reading adds exactly the unexpired certificates that are not there yet, once each, behind the old entries |
| `CaBundle.AbsorbKeepsTextOrder` | internal/openstack/ca.go:797-846 | new entries stand in the order of their first occurrence in the text |
| `CaBundle.AbsorbOfKnownIsNoOp` | internal/openstack/ca.go:812-846 | reading only expired or present certificates changes nothing |
| `CaBundle.ScanPrint` | internal/openstack/ca.go:792-872 | parsing a printed bundle gives back its certificates, in order and without an error |
| `CaBundle.EveryEntryIsPrinted` | internal/openstack/ca.go:853-872 | the text holds every certificate as a block behind a comment line with the name of its issuer |
| `CaBundle.ReloadKeepsTheUnexpired` | internal/openstack/ca.go:792-872 | loading a printed bundle keeps its unexpired entries, in order |
| `CaBundle.Bundle.GetCertsFromPEM` | internal/openstack/ca.go:792-851 | the parsing loop: an offending block ends it with an error but keeps what was read before; no text at all is an error |
| `CaBundle.Bundle.GetBundlePEM` | internal/openstack/ca.go:853-872 | the printing loop writes the text that parsing gives the entries back from |
| `CaReconcile.FoldStops` | internal/openstack/ca.go:35-549 | nothing after the first failing source has an effect on the pass |
| `CaReconcile.ControlPlane.EnsureCaBundles` | internal/openstack/ca.go:591-625 | an issuer's CA goes into the full bundle first, then into the CA-only one, then into the status under the issuer's name, with the expiry of its first valid certificate; a CA that is not there, does not parse, or has no valid certificate fails the pass and lists nothing |
| `CaReconcile.ControlPlane.LoadSecret` | internal/openstack/ca.go:74-98 | the earlier output is loaded, the full bundle first; a missing secret or key is none, an unparsable one fails |
| `CaReconcile.ControlPlane.FoldUser` | internal/openstack/ca.go:412-448 | the user's secret is folded in, in the order of iteration, up to the first entry that fails |
| `CaReconcile.ControlPlane.FoldMirrors` | internal/openstack/ca.go:450-479 | the mirrors are folded in by sorted host; one that fails to parse is skipped and keeps its readable part |
| `CaReconcile.ControlPlane.ReconcileCAs` | internal/openstack/ca.go:35-549 | the secret changes only at the end of a pass that goes through, and then to the fold of all sources over the earlier output |
| `CaRuns.StepEffect` | internal/openstack/ca.go:591-605 | one source only appends to the bundles, adds exactly its unexpired certificates to the full one, and keeps the CA-only bundle inside it |
| `CaRuns.FoldEffect` | internal/openstack/ca.go:100-511 | after a pass that goes through, every source is covered by the bundles at every later time |
| `CaRuns.SecondPassWritesTheSame` | internal/openstack/ca.go:74-511 | fixpoint: while nothing written expires, a second pass over the same inputs writes the very same text, whatever the two orders of iteration and the first secret |
| `CaRuns.PassWritesTheUnexpired` | internal/openstack/ca.go:74-511 | a pass writes exactly what it read of the old secret and the certificates of the sources that have not expired when it looks at them |
| `CaRuns.OrderShowsOnlyAtExpiry` | internal/openstack/ca.go:442-479 | the set written does not depend on the order of iteration unless a certificate expires in the middle of the pass |
| `CaRuns.PassKeepsTheUnexpired` | internal/openstack/ca.go:74-98 | a pass, also one that fails or whose write fails, loses no certificate that is not expired |
| `CaRuns.NoCertificateIsLostEarly` | internal/openstack/ca.go:74-549 | over every run a certificate once in the bundle secret stays until a pass at which it is expired |
| `CaRuns.NoIssuerIsLostEarly` | internal/openstack/ca.go:90-549 | the same for the CA-only bundle |
| `CaRuns.CaOnlyWithinFull` | internal/openstack/ca.go:82-605 | over every run the CA-only bundle lies within the full one while the clock advances |
| `CaOutcome.ScanReadsBlocks` | internal/openstack/ca.go:792-848 | the parser takes the certificates of the blocks up to the first that is no certificate, has headers or does not parse, and is without an error exactly if there is none |
| `CaOutcome.PassGoesThroughIff` | internal/openstack/ca.go:35-549 | a pass goes through if and only if what it reads is readable, all four issuers have a CA with a certificate that has not expired when it is looked at, and every text but those of the mirrors parses |
| `CaOutcome.PassOutcome` | internal/openstack/ca.go:35-625 | after a pass that goes through and is stored the full file holds every certificate of every input that is unexpired at its end, the CA-only file those of the four issuers, and both nothing else but what they held; the status has the four issuers in order, each with the expiry of its first unexpired certificate; otherwise the secret is as it was |
| `Rollout.Deployer.DeployOne` | internal/dataplane/deployment.go:76-179 | one round of the loop: fresh mounts, the runner image of the version, the conditional launch, the recorded images; a lookup error stores False |
| `Rollout.Deployer.ConditionalDeploy` | internal/dataplane/deployment.go:186-270 | unknown launches; a refused launch is an error that stores nothing; a job that has succeeded stores True, one that failed beyond its limit stores its reason and is an error, one that runs stores False; a job that is not found leaves the conditions alone |
| `Rollout.Deployer.RecordImages` | internal/dataplane/deployment.go:172-177 | the images of a deployed service are copied from the version |
| `Rollout.Deployer.Run` | internal/dataplane/deployment.go:62-182 | the whole pass, up to the first service that is not done |
| `RolloutRuns.DeployKeeps` | internal/dataplane/deployment.go:76-182 | a pass keeps the launch order and a condition or job behind every launch |
| `RolloutRuns.LaunchesFollowTheList` | internal/dataplane/deployment.go:76-212 | in every run the services launched form a prefix of the list, and all services before one were True at the moment of its launch |
| `RolloutRuns.StoredServicesAreNotRelaunched` | internal/dataplane/deployment.go:198-267 | once a condition of a service is stored, no later pass launches it |
| `RolloutRuns.DoneMeansDeployed` | internal/dataplane/deployment.go:152-181 | Deploy returns (nil, nil) only with every service True and its images recorded |
| `RolloutRuns.LaunchesSeeTheirOwn` | internal/dataplane/deployment.go:71-109 | no launch sees another service's mounts, nor its runner image when the version names one or there is no version |
| `RolloutRuns.RunnerImageIsOwnIff` | internal/dataplane/deployment.go:97-103 | with a version that names none, a launch gets its own runner image, or that of the start of the pass, if and only if it names one, or no earlier service does, or the last that does names that of the start |
| `RolloutRuns.RunnerImageLeaks` | internal/dataplane/deployment.go:97-103 | with a version that names none, the runner image of one service reaches the next |
| `RolloutCompletion.PassMakesProgress` | internal/dataplane/deployment.go:152-266 | a clean pass that finds the current job succeeded leaves strictly fewer services pending |
| `RolloutCompletion.DemotedServiceIsRestored` | internal/dataplane/deployment.go:86-238 | a finished service that a lookup error demoted is True after the next pass that can look up the services up to it and sees its job, without a launch and whatever happens behind it |
| `RolloutCompletion.FairRunCompletes` | internal/dataplane/deployment.go:62-182 | from any point of a fair clean run without orphans a later pass returns (nil, nil) |
| `RolloutCompletion.OrphanStaysForever` | internal/dataplane/deployment.go:214-223 | a service marked False without a launch is never True again in any run |
| `RolloutCompletion.CompletesIffNoOrphan` | internal/dataplane/deployment.go:62-270 | a fair clean run completes if and only if it starts without an orphan |
| `RolloutCompletion.LookupErrorMakesOrphans` | internal/dataplane/deployment.go:86-94 | a lookup error on a service that was never launched makes it an orphan |
| `RolloutOutcome.DeployOutcome` | internal/dataplane/deployment.go:62-270 | where a pass stops: the services in front were looked up and are True, by a job that succeeded or from before, with their images recorded; the one it stops at has False(Error), no condition, the reason of its failed job, or False(Requested), as it was not found, not launched, failed or runs; nothing else has changed |
| `RolloutOutcome.DeployFailsIff` | internal/dataplane/deployment.go:86-258 | Deploy returns an error if and only if the service it stops at could not be looked up, its launch was refused, or its visible job has no success and more failures than the limit |
| `StringOrder.CollectAndSort` | internal/dataplane/cert.go:52-56 | ranging over a map in any order and sorting gives the one ascending listing of its keys |
| `StringOrder.AscendingIsUnique` | internal/dataplane/cert.go:52-56 | the sorted keys do not depend on the order of iteration |
| `CertPacking.NextFitIsGood` | internal/dataplane/cert.go:61-76 | next-fit keeps all triples in order; each secret is within the maximum or a single triple; neighbours exceed it together |
| `CertPacking.PackSorted` | internal/dataplane/cert.go:58-78 | the packing loop, for every integer maximum; the pointer to the current secret is never nil |
| `CertPacking.CreateSecretsDataStructure` | internal/dataplane/cert.go:47-79 | collecting, sorting and packing, in whatever order the map is ranged over |
| `CertPacking.PackingPartitions` | internal/dataplane/cert.go:58-78 | the secrets have disjoint keys and their union is the input under all keys; panic exactly when two keys are left over, the last key dropped exactly when one is |
| `CertPacking.PackingRespectsCapacity` | internal/dataplane/cert.go:61-76 | counting the lengths of all keys and all their values, a secret holds at most secretMaxSize or exactly the three entries of one triple, and two neighbours hold more than secretMaxSize |
| `CertPacking.PackingUsesFewSecrets` | internal/dataplane/cert.go:61-76 | (n / 2) * (max + 1) is at most the total size, and n is less than twice the number of any other packing within the maximum |
| `CertGrouping.KeyHasOneBase` | internal/dataplane/cert.go:197-199 | no key belongs to two nodes |
| `CertGrouping.AlignedIffClearNames` | internal/dataplane/cert.go:52-199 | the sorted keys fall into aligned triples of whole nodes if and only if no name continues another one in a way that sorts between its endings |
| `CertGrouping.PartedNamesAreSeparated` | internal/dataplane/cert.go:52-199 | names of which none is a prefix of the other never interleave |
| `CertGrouping.OnlyDashesInterleave` | internal/dataplane/cert.go:52-199 | a continuation that does not start with a dash is harmless |
| `CertGrouping.DashNamesInterleave` | internal/dataplane/cert.go:52-199 | every name interleaves with the one that has -d behind it, as the hosts compute-0.lab and compute-0.lab-d do |
| `CertGrouping.NodesAreNotSplit` | internal/dataplane/cert.go:58-78 | with clear names no node's CA, certificate and key are in two secrets |
| `CertPublication.NamesDiffer` | internal/dataplane/cert.go:290-303 | the secrets of one owner have different names, hashed or not |
| `CertPublication.NamesFit` | internal/dataplane/cert.go:290-303 | a name has at most 253 characters, and that of the documented example is as documented |
| `CertPublication.PassRepairsFirst` | internal/dataplane/cert.go:202-228 | a requeueing pass repairs exactly the first secret that differs; a pass that is done found all in order; an error changes nothing |
| `CertPublication.PublicationConverges` | internal/dataplane/cert.go:202-228 | exactly as many passes requeue as secrets differed, at most all of them, and then every pass is done |
| `CertPublication.ReaderSeesEverything` | internal/dataplane/deployment.go:335-360 | after a pass that is done, the volume built from the label of secret 0 shows exactly all certificate data, whatever else is in the cluster, and every source is labelled with its number and their count |
| `CertPublication.PublishKeepsFirst` | internal/dataplane/cert.go:209-226 | publishing, also when it stops half-way, never leaves a first secret that is empty or not counted by its label |
| `CertPublication.RunReaderIsRightIffData` | internal/dataplane/deployment.go:335-360 | in every run, after a pass that is done, the reader shows exactly the data if and only if there is any; with no first secret it fails |
| `CertPublication.EmptyNodesetLeavesStaleCertificates` | internal/dataplane/deployment.go:335-360 | without nodes nothing is published and the reader mounts what an earlier nodeset left |
| `CertPublication.NodesetKeysInThrees` | internal/dataplane/cert.go:96-199 | the certificates of a nodeset come in threes, so that packing neither panics nor drops any |
| `CertPublication.CollectHasExactly` | internal/dataplane/cert.go:96-200 | the data holds, for the last node of every control plane name, its CA under -ca.crt, its certificate under -tls.crt and its private key under -tls.key, and no other keys |
| `CertPublication.DonePassShowsNodes` | internal/dataplane/cert.go:83-229 | after a pass over some nodes that is done, the sources the reader gets show exactly these files, each in one source |
| `CertPublication.Publisher.EnsureTLSCerts` | internal/dataplane/cert.go:83-229 | the first node without a name or with a failed certificate fails the pass, one whose certificate is not there yet requeues it, and nothing is published; otherwise the certificates of all nodes are packed and published, and once a pass is done the sources of the reader show for every node exactly its CA, certificate and key |
| `CertPublication.Publisher.PublishSecrets` | internal/dataplane/cert.go:209-226 | secrets are created or patched in order, up to and including the first that changes |
| `CertPublication.Publisher.CertSources` | internal/dataplane/deployment.go:335-360 | the loop that builds the projection, with an error for a secret that is not there |
| `Decimal.AtoiOfItoa` | internal/dataplane/deployment.go:335-360 | the number of secrets survives its way through the label |
| `ServiceDedupe.DedupeNodeSet` | internal/dataplane/service.go:183-219 | the loop with its three filters, and the append of line 209 to the parameter; what it keeps is said by the rows below |
| `ServiceDedupe.DedupeKeepsWinners` | internal/dataplane/service.go:183-218 | a service is kept exactly if it is not blocked and the first of its type to be so, or missing; a list fails exactly on a lookup error or a repeated missing name |
| `ServiceDedupe.DedupeResult` | internal/dataplane/service.go:183-218 | a subsequence without duplicates and with different types; what was left out shares its type with one kept or was placed globally |
| `ServiceDedupe.DedupePlaces` | internal/dataplane/service.go:183-219 | no two services kept are of one type by their catalog entries, an empty type standing for the name; of the existing ones not placed globally, seen where first listed, one is left out exactly when an earlier one of its type is; missing ones are kept |
| `ServiceDedupe.DedupeGrowsByTheLast` | internal/dataplane/service.go:183-219 | the list of globals grows by the last global service kept, and by nothing when none is |
| `ServiceDedupe.DedupeIsIdempotent` | internal/dataplane/service.go:183-218 | on its own result, with the same globals, it changes nothing |
| `ServiceDedupe.OnlyTheLastIsRecorded` | internal/dataplane/service.go:206-215 | of the global services a nodeset introduces, exactly the last one is added |
| `NodeSetDedupe.DedupeServices` | internal/dataplane/service.go:155-181 | the nodesets are placed one after the other, each with the override or its own list and the globals found so far; the map has the last nodeset of every name; it fails exactly when a list has a failing lookup or a missing service twice |
| `NodeSetDedupe.OneAtATimeIsPlacedOnce` | internal/dataplane/service.go:155-215 | if each nodeset introduces at most one global service, no global service is kept on two nodesets |
| `NodeSetDedupe.PlacedOnceIffForgottenLose` | internal/dataplane/service.go:155-215 | for any lists, no global service is placed twice if and only if none that a nodeset introduces in front of another one wins again on a later nodeset |
| `NodeSetDedupe.MapPlacesOnce` | internal/dataplane/service.go:155-181 | what holds of the lists holds of the map that is returned |
| `NodeSetDedupe.OverridePlacesOnceIffOneGlobal` | internal/dataplane/service.go:155-215 | with one list for two nodesets or more, global services are placed once if and only if the list introduces at most one |
| `NodeSetDedupe.FirstOfSeveralReturns` | internal/dataplane/service.go:206-215 | of several that the first nodeset introduces, the first is kept again on the second |
| `NodeSetDedupe.TwoGlobalsArePlacedTwice` | internal/dataplane/service.go:206-215 | two global services on two nodesets with one list |
| `ImageProtocol.Operator.CreateOrPatch` | internal/openstack/keystone.go:130-160 | the object comes back with the spec that was stored and the generation it got |
| `ImageProtocol.Operator.ReconcileKeystoneAPI` | internal/openstack/keystone.go:22-201 | disabled: delete and clear; enabled: patch, and the images of the version are recorded exactly when the object came back Ready and observed at its own generation; otherwise nothing changes |
| `ImageProtocol.CheckedPassRecordsIff` | internal/openstack/keystone.go:22-201 | the same for any set of image fields: recorded if and only if Ready and observed at the generation of the object as patched, with the frame of all other images, and the disabled and the failing pass |
| `ImageProtocol.RecordedImagesWereReady` | internal/openstack/keystone.go:130-178 | in every reachable state the recorded images are, all together, those of one generation that was reported Ready |
| `ImageProtocol.UncheckedPassIsRightIffUnchanged` | internal/openstack/redis.go:285-298 | without comparing generations, a recording pass writes the images of the report its Ready flag comes from if and only if they are those of the observed generation |
| `ImageProtocol.UncheckedRunIsRightIffUnchanged` | internal/openstack/redis.go:285-298 | the same in every reachable state of every run |
| `ImageProtocol.UnchangedRunRecordsWhatWasReported` | internal/openstack/redis.go:285-298 | a run whose recording passes all find the images unchanged records only what was reported |
| `ImageProtocol.UncheckedPassRecordsTooEarly` | internal/openstack/redis.go:285-298 | a run in which an image is recorded that no report was ever made for |
| `OvnImages.ControlPlane.ReconcileOVNDbClusters` | internal/openstack/ovn.go:126-268 | with OVN enabled it records exactly when the template names a cluster and every object returned was Ready at its own generation |
| `OvnImages.PassIsItsSteps` | internal/openstack/ovn.go:126-268 | what the loop leaves in the status is what the steps of an undisturbed pass leave there, whatever the requests answer |
| `OvnImages.RunKeeps` | internal/openstack/ovn.go:126-268 | at every step of every run, also within a pass, the generations seen as ready and the images recorded are backed by reports of those generations |
| `OvnImages.RecordingHasItsPass` | internal/openstack/ovn.go:126-268 | a recording with OVN enabled was made by one pass that visited every cluster of its template and found it Ready at its generation of that moment |
| `OvnImages.MatchMeansReported` | internal/openstack/ovn.go:563-575 | a match means one pass recorded the version; exactly when OVN was enabled in it, it found every cluster of its template Ready at its current generation, and that generation was reported Ready with the NB image for an NB cluster and the SB image for an SB cluster |
| `OvnImages.DisabledPassRecordsIffTemplate` | internal/openstack/ovn.go:131-264 | a pass with OVN disabled records exactly when the template names a cluster |
| `OvnImages.MatchWithoutAnyReport` | internal/openstack/ovn.go:131-264 | so the gate can pass without any report |
| `GaleraImages.ReconcileGaleras` | internal/openstack/galera.go:88-215 | one ready instance up to the first without a certificate is enough to record the image; the condition is Ready only if all are |
| `GaleraImages.RecordedImageWasReadyOnce` | internal/openstack/galera.go:300-302 | in every reachable state a recorded image was recorded at an instance that was Ready with it, at its generation of that moment, which had been reported |
| `GaleraImages.OneReadyInstanceIsEnough` | internal/openstack/galera.go:300-302 | and no more: of any two instances, the image is recorded in passes over both although the other one was never reported |
| `GaleraImages.ImageHoldsForAllIffOneInstance` | internal/openstack/galera.go:130-302 | for every set of instances: in all runs over them a recorded image was found Ready at each of them if and only if the set has at most one member |
| `GaleraImages.PassIsARunOfVisits` | internal/openstack/galera.go:130-302 | what the loop leaves in the status is what the run of its visits leaves there |
| `ImageGate.ControlplaneContainerImageMatch` | internal/openstack/version.go:308-391 | true if and only if every compared field of every enabled service has the same image in the status and in the version, or none in both; the names are those of the services with a field that differs |
| `ImageGate.GateIsSound` | internal/openstack/version.go:308-391 | if the gate passes, every enabled service whose recorder checks generations was reported Ready with each image compared for it |
| `GateHistories.PassingGateMeansRolledOut` | internal/openstack/version.go:308-391 | a passing gate over services of all kinds: one resource was reported Ready with all compared images; one pass recorded the OVN images, with all its clusters Ready exactly if OVN was enabled in it; one Galera instance was found Ready |
| `ImageGate.UnrecordedServicePasses` | internal/openstack/version.go:296-304 | the gate passes for a service without records exactly when it is disabled or the version has nil in all its fields |
| `DataplaneSearch.BuildNodeSetMap` | internal/openstack/dataplane.go:85-89 | the map holds, of nodesets with one name, the last |
| `DataplaneSearch.SearchDeployment` | internal/openstack/dataplane.go:101-135 | the loops over nodesets and services, with a cache that stays true to the API server |
| `DataplaneSearch.IsDeploymentRunning` | internal/openstack/dataplane.go:68-140 | the cached search answers as the plain one and fetches no existing service twice; it fails at once when the deployments cannot be listed |
| `DataplaneSearch.SearchAgreesWithPlain` | internal/openstack/dataplane.go:85-139 | without lookup errors it is true exactly when a deployment that is not done names a nodeset of which the last of that name has nodes and whose services, or else the override of the deployment, include an existing one of the type |
| `DataplaneSearch.FirstMetDecides` | internal/openstack/dataplane.go:93-139 | whatever fails, the first service met in the order of deployments, nodesets and services that is neither missing nor of another type decides: a failed lookup with an error, one of the type with yes; the answer is no exactly when there is none |
| `DataplaneSearch.PositiveIsAlwaysRight` | internal/openstack/dataplane.go:114-134 | a positive answer is right even if other lookups fail |
| `Ipam.BuildNetServiceNetMap` | internal/dataplane/ipam.go:92-103 | the map knows exactly the lower-case names, each with the service network that the last network of that name names, or else that name itself |
| `Ipam.NetMapIsUnique` | internal/dataplane/ipam.go:92-103 | what the map holds is settled by the list of networks |
| `Ipam.CtlplaneNames` | internal/dataplane/ipam.go:364-365 | a name serves as ctlplane exactly if it is that name in any case, or its last network in any case has ctlplane as service network |
| `Ipam.CtlplaneIsFirst` | internal/dataplane/ipam.go:363-376 | the network that gets the address is the first one that serves as ctlplane |
| `Ipam.ArraysAfter` | internal/dataplane/ipam.go:356-406 | frame: on success and on failure an array is as it was, but for the address of the first visited node that uses it and has one, at its ctlplane network and only if that had none |
| `Ipam.OthersAfter` | internal/dataplane/ipam.go:387-400 | no IPSet but those of the host names changes, and none in what it reports |
| `Ipam.IPSetsAfter` | internal/dataplane/ipam.go:381-400 | the IPSet of a node has the nodeset's labels and the networks of its array as they were when it was visited |
| `Ipam.FirstUserIsReserved` | internal/dataplane/ipam.go:356-400 | a node that needs an address gets that of the first node visited that may write one into the same array |
| `Ipam.OwnAddressIffUnshared` | internal/dataplane/ipam.go:356-400 | a node that needs an address gets its own ansibleHost if and only if no node visited before may write another one into the same array |
| `Ipam.InheritorsShareOneAddress` | internal/dataplane/ipam.go:358-360 | all nodes that inherit the template's networks and need an address get one and the same |
| `Ipam.InheritedAddressFollowsTheOrder` | internal/dataplane/ipam.go:356-360 | which one it is depends on the order of iteration |
| `Ipam.OrderDoesNotMatter` | internal/dataplane/ipam.go:356-400 | for nodes that share neither arrays nor host names the IPSets do not depend on the order of iteration |
| `Ipam.ApartNodeGetsItsOwn` | internal/dataplane/ipam.go:356-400 | of such nodes the IPSet has the labels, the networks the node lists or inherits with its host as the fixed address exactly where it may be written, and the readiness from before |
| `Ipam.ReserveOkIff` | internal/dataplane/ipam.go:356-406 | the reservation goes through if and only if every node has a network that serves as ctlplane and no patch is refused |
| `Ipam.CleanUpRemovesTheStale` | internal/dataplane/ipam.go:319-331 | the listed IPSets without a current host name are gone and all others as they were |
| `Ipam.CleanUpOkIff` | internal/dataplane/ipam.go:319-331 | the clean-up goes through if and only if no deletion of a stale IPSet is refused |
| `Ipam.LabelledAreCurrent` | internal/dataplane/ipam.go:261-400 | after clean-up and reservation without errors the labelled IPSets are exactly those of the current host names |
| `Ipam.Client.CleanupStaleReservations` | internal/dataplane/ipam.go:304-332 | the deletion loop, which ends at the first refused deletion |
| `Ipam.Client.FixAddress` | internal/dataplane/ipam.go:363-376 | the loop over one node's networks: the host becomes the fixed address exactly of the first network that serves as ctlplane, if the nodeset is pre-provisioned, the host is an address, and the network has none; everything else stays; found exactly if a network serves as ctlplane |
| `Ipam.Client.ReserveIPs` | internal/dataplane/ipam.go:335-408 | the loop over the nodes, on the heap; an error keeps what was written before it |
| `Ipam.ReadyIsTrueIffReported` | internal/dataplane/ipam.go:287-300 | given the pass counts as ready, Ready is True of every returned IPSet if and only if each host had an IPSet before the pass that had reported |
| `Ipam.NewHostIsNotWaitedFor` | internal/dataplane/ipam.go:287-300 | a nodeset with one new host counts as ready although its IPSet never reported |
| `Ipam.Client.EnsureIPSets` | internal/dataplane/ipam.go:261-301 | the whole pass; when it is ready, the labelled IPSets are those of the host names, Ready is False of none, and True of all exactly if all had reported before |

## Left out

- CaBundle.ExpiredIffUnderThirtySeconds: minutes are rounded exactly; the rounding error of a float64, far below what decides the sign of the result around thirty seconds, is not modelled.
- CaReconcile.ControlPlane.ReconcileCAs: creating issuers and certificates, labels, conditions and waiting are a source that is unavailable, which ends the pass; CAList keeps what was collected before a pass ended.
- CaRuns.NoCertificateIsLostEarly: the clock runs forward within a pass; nothing is assumed between passes.
- x509 parsing and hashing are parameters. The hash is injective, and a parsed certificate keeps the bytes it was parsed from.
- Base64 is left out: a line of data holds its bytes. An issuer's Common Name prints as one line of other text.
- Rollout.Deployer.Run: an absent condition stands for Unknown, condition names are injective in the service, and any error of an execution lookup other than not-found ends the pass; jobs are never deleted.
- AnsibleExecutionSummaries and events are not modelled; the mounts of a service are a list of names.
- RolloutCompletion.CompletesIffNoOrphan: fairness is assumed of the passes and of the jobs, which lie outside this code.
- CertPacking.PackSorted: sizes are unbounded integers.
- StringOrder.CollectAndSort: strings are ordered by character, which is the order by bytes for ASCII names.
- CertPublication.Publisher.CertSources: only the secrets of one service and certificate key; which services have certificates is not modelled. A label with a sign or beyond the range of an int is not modelled; any other label that is no number counts as 0.
- CertPublication.NamesDiffer: the SHA-224 of a long name is an injective parameter with hexadecimal digits.
- CertPublication.Publisher.EnsureTLSCerts: the clean-up of certificates of removed nodes comes first in the code; it deletes certificates of single nodes, which are not among the published secrets, and is not modelled.
- CertPublication.PublicationConverges: a patch stores exactly the wanted data and labels.
- ServiceDedupe.DedupeNodeSet: lookups are stable during a call.
- ImageProtocol.RecordedImagesWereReady: reads are fresh, deletion is immediate, and a missing image in the version ends the pass.
- OvnImages.ControlPlane.ReconcileOVNDbClusters: certificates and TLS settings only show as a pass that ends early.
- GaleraImages.ReconcileGaleras: the Ready condition and the image only; deleting instances that the template no longer names is not modelled.
- ImageProtocol.UncheckedRunIsRightIffUnchanged: one Redis instance; several share the one image field, as for Galera.
- ImageGate.ControlplaneContainerImageMatch: the services are a list of compared fields instead of 25 functions; of the volume and share images of Cinder and Manila these are the ones the version names.
- Ipam.Client.EnsureIPSets: deletion is immediate, and the object that the API server returns is the one it was sent.
- Ipam.BuildNetServiceNetMap: lower case is that of ASCII letters.
- DNS data and inventory, endpoint and route configuration, the other reconcilers of single services, service defaults, dependency checks, deprecated fields, and the OpenStackVersion and deployment controllers are not part of this model.
