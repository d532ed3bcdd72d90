# Lab administration frontend — a Dafny model

This project models the client-side logic of the research lab's Angular
administration frontend: the services that talk to the member,
publication, event and tool back-ends, the list pages that create, edit
and delete those resources and keep their member associations in step, the
member detail dialog, the member form, the three create/edit dialogs and
the dashboard.

The backend is not modelled. Each HTTP answer is a parameter of type
`Response<T>` (`Ok(body)` or `Failed`). What the frontend sends takes one
of three forms:

- Entries of type `Effects.Call` in a returned trace. These are the
  association links and unlinks, the supervisor set and clear requests,
  the deletions, the member and full-member reads of the member list and
  the dashboard, and the change notifications.
- Values describing the request without a trace entry. Member creates and
  updates are `MemberService.MemberWrite` values, and so is the PUT a
  supervisor set or clear sends. The resource payloads are
  `PubService.PubPayload` and the `Payload` functions of the event and
  tool services.
- Only the answer, as a `Response` input. This covers the resource reads,
  creates and updates (`getPubById`, `addPub`, `updatePub` and their event
  and tool counterparts), the student read inside a supervisor set or
  clear, and the detail dialog's full-member fetch. The frontend reads untyped backend records, so records are
JavaScript values (`Js.JsVal`). `Js` defines the coercions the code relies
on: truthiness, `||`, `??`, property access, `Number(..)`, `String(..)`,
strict equality and `toLowerCase()`.

Modules and what they model:

- `Js`: JavaScript values and coercions.
- `Effects`: the trace entries.
- `Refs`: the id mappings the services and dialogs apply to member lists.
- `Cache`: the per-service association cache (`setMembersFor…` / `getMembersFor…`), a class over a map.
- `MemberService`, `PubService`, `EvtService`, `OutilService`: the four services.
- `Reconcile`: the added/removed/notify computation of the edit handlers, the cache write and the unlink loop.
- `ArticleView`, `EventView`, `ToolView`: the three list pages.
- `MemberView`: the member list page, including the delete cascade of a teacher.
- `MemberDetail`: the member detail dialog.
- `MemberForm`: the member form.
- `CreateDialogs`: the publication, event and tool dialogs, one class parameterised by kind.
- `Dashboard`: the dashboard.

Stateful components are classes. Their methods change the component's
fields and say in `ensures` what every field becomes. Loops of the source
are `while`/`for` loops with invariants:

- the unlink loop of an edit;
- the association gathering of a delete;
- the dashboard's role count.

Each loop is proved equal to a specification function, and the properties
are lemmas about those functions.

## Model

| member | source | states |
|---|---|---|
| Cache.MemberCache.constructor | src/services/pub.service.ts:13 | the cache starts empty |
| Cache.MemberCache.Set | src/services/pub.service.ts:17-19 | the entry under `Number(id)` becomes the list (or [] when none is given); every other entry is unchanged |
| Cache.MemberCache.Get | src/services/pub.service.ts:21-23 | a lookup is by `Number(id)`: absent keys give undefined, present keys give the stored list |
| Cache.LookupIn | src/services/evt.service.ts:11-21 | the lookup is defined exactly on the stored keys and returns the stored list |
| Cache.SetThenGet | src/services/outil.service.ts:11-21 | set-then-get returns the stored list, or [] when none was given; a key that differs after `Number` reads back as undefined, and an equal key reads back the same list |
| Effects.LinkCalls | src/services/member.service.ts:164-171 | one link request per id, in id order, each for the given resource |
| Effects.UnlinkCalls | src/services/member.service.ts:182-189 | one unlink request per id, in id order, each for the given resource |
| Refs.IdsOf | src/services/pub.service.ts:43-56 | `Number(m.id)` of every entry, in order |
| Refs.IdsOrSelfOf | src/services/pub.service.ts:64-76 | `Number(m.id ?? m)` of every entry, in order |
| Refs.RefsOf | src/services/evt.service.ts:38-46 | one `{id}` reference per id, in order |
| Refs.RefObjsReadBack | src/app/article-create/article-create.component.ts:92-104 | references written as `{id: n}` read back as the same ids under both id mappings |
| Js.LowerCaseUnchanged | src/services/member.service.ts:36-70 | lower-casing a string without capitals returns it unchanged, so the role constants compare equal to themselves after `toLowerCase()` |
| Js.NumberStringRoundTrip | src/app/member/member.component.ts:115 | `Number(String(n))` is `n` for every integer, so string ids denote the same number again |
| MemberService.GetAllMembers | src/services/member.service.ts:14-34 | one listed member per record, in order; a record is a student exactly when it has a `dateInscription` property; the creation date falls back to today; a failure, or a null record, gives [] |
| MemberService.GetMemberById | src/services/member.service.ts:76-100 | the fetch fails exactly when the request fails or the body is null; the member is a student exactly when `dateInscription` is neither null nor undefined; every falsy role field becomes null |
| MemberService.RoleRulesDisagreeOnlyOnNull | src/services/member.service.ts:14-100 | the list and detail mappings disagree on the role exactly when `dateInscription` is null; the list then says student and the detail says teacher |
| MemberService.AddMember | src/services/member.service.ts:36-70 | a POST to /membres/enseignant exactly when the lowered type is 'enseignant', else to /membres/etudiant, with every default applied ('' for strings, null for photo and encadrant, today for dates) |
| MemberService.UpdateMember | src/services/member.service.ts:245-280 | a PUT to the same role path plus `/id`, with the same role choice and the same defaults |
| MemberService.AddAndUpdateAgree | src/services/member.service.ts:36-70 | create and update send the same payload; the update path is the create path plus `/id` |
| MemberService.SetEncadrant | src/services/member.service.ts:117-142 | the caller always sees success; there is a PUT to /membres/etudiant/id exactly when the student could be read; it writes back the fetched student, each field its truthy value or its default, with encadrant `{id: teacherId}` |
| MemberService.RemoveEncadrant | src/services/member.service.ts:223-243 | the outcome is success exactly when the read succeeds and the PUT succeeds; the PUT writes back the fetched student, each field its truthy value or its default, with encadrant null |
| MemberService.SupervisorPayload | src/services/member.service.ts:122-134 | a student record: cin and names copied from the fetched record, every other field its truthy value or its default ('', null for photo, today for dates), and the given encadrant |
| MemberService.SupervisorLikeStudentUpdate | src/services/member.service.ts:122-134 | for a student record, the supervisor rewrite sends the body of the student's own update with only `encadrant` replaced |
| MemberService.SetAndRemoveDifferOnlyInEncadrant | src/services/member.service.ts:117-243 | setting and clearing the supervisor write the same student record except for `encadrant` |
| MemberService.Swallowed | src/services/member.service.ts:154-161 | an association request whose error is caught always succeeds |
| MemberService.Join | src/app/member/member.component.ts:151 | a join fails exactly when one of its requests fails |
| MemberService.SwallowedJoinNeverFails | src/app/member/member.component.ts:117-151 | a join of error-swallowing association requests never fails |
| MemberService.AffectMembers | src/services/member.service.ts:216-220 | with an id list, one link per id, in order; without one, nothing |
| PubService.NormalizePub | src/services/pub.service.ts:25-41 | `sourcePdf` falls back to `sourcepdf`; members fall back to `auteurs`, then to []; the members are always truthy |
| PubService.GetAllPubs | src/services/pub.service.ts:25-41 | every record normalised, in order; a failure or a null record gives [] |
| PubService.GetPubById | src/services/pub.service.ts:58-62 | the fetch fails exactly when the request fails or the body is null; otherwise the record is normalised |
| PubService.AddPub | src/services/pub.service.ts:43-56 | sends `sourcepdf` from `sourcePdf`; members `{id: Number(m.id)}` exactly when `membres` is an array; the created publication is absent exactly on failure or a null body |
| PubService.UpdatePub | src/services/pub.service.ts:64-76 | always reports success; PUT to /publications/id; members mapped with `Number(m.id ?? m)` exactly when `membres` is an array |
| EvtService.Summarize | src/services/evt.service.ts:22-36 | each missing start or end date falls back to `date` |
| EvtService.NormalizeEvt | src/services/evt.service.ts:56-60 | the same date fallback; members as given when truthy, else [] |
| EvtService.GetAllEvents | src/services/evt.service.ts:22-36 | one summary per record with id, title, place and the date fallback; a failure or a null record gives [] |
| EvtService.GetEventById | src/services/evt.service.ts:56-60 | the fetch fails exactly when the request fails or the body is null; otherwise the record is normalised |
| EvtService.Payload | src/services/evt.service.ts:48-54 | members `{id: Number(m.id)}` exactly when `membres` is an array |
| EvtService.AddEvent | src/services/evt.service.ts:38-46 | the create fails exactly when the request fails or the body is null; otherwise the record is normalised |
| OutilService.NormalizeOutil | src/services/outil.service.ts:50-54 | id, date and source as given; members as given when truthy, else [] |
| OutilService.GetAllOutils | src/services/outil.service.ts:22-34 | one summary (id, date, source) per record; a failure or a null record gives [] |
| OutilService.GetOutilById | src/services/outil.service.ts:50-54 | the fetch fails exactly when the request fails or the body is null; otherwise the record is normalised |
| OutilService.Payload | src/services/outil.service.ts:56-62 | date and source as given; members `{id: Number(m.id)}` exactly when `membres` is an array |
| OutilService.AddOutil | src/services/outil.service.ts:36-48 | the created tool is absent exactly on failure or a null body |
| Reconcile.MinusMembers | src/app/article/article.component.ts:104-105 | the filter keeps exactly the entries of the first list not (strictly) in the second |
| Reconcile.DedupSpec | src/app/article/article.component.ts:111 | `Array.from(new Set(..))` keeps exactly the same elements, without duplicates |
| Reconcile.AddedRemovedSpec | src/app/event/event.component.ts:101-102 | an id is added exactly when it is newly selected, and removed exactly when it is no longer selected; a NaN is always both added and removed |
| Reconcile.NotifySpec | src/app/tool/tool.component.ts:103-112 | the notified ids are exactly the added and the removed ids, without duplicates, and are empty exactly when nothing changed |
| Reconcile.CoveredMinusEmpty | src/app/article/article.component.ts:104-105 | removing a covering list leaves nothing (NaN-free lists) |
| Reconcile.SameSelectionNoChange | src/app/article/article.component.ts:104-120 | the same selection in any order adds, removes and notifies nothing |
| Reconcile.LinkCallsMembers | src/services/member.service.ts:165-171 | the link requests are exactly one per given id, for the given resource |
| Reconcile.UnlinkCallsMembers | src/app/article/article.component.ts:125-130 | the unlink requests are exactly one per given id, for the given resource |
| Reconcile.EditCallsOrder | src/app/article/article.component.ts:104-130 | with additions every link precedes every other request; without additions there is no link; one request per added id, one per removed id and one notification exactly when some id changed |
| Reconcile.EditLinksAndUnlinks | src/app/event/event.component.ts:101-125 | an edit links exactly the added members and unlinks exactly the removed ones, and issues nothing else but notifications |
| Reconcile.EditNotifies | src/app/event/event.component.ts:104-115 | the one notification carries exactly the notified ids; it is issued exactly when some id changed; with additions it is the last request |
| Reconcile.UnchangedSelectionIssuesNothing | src/app/tool/tool.component.ts:98-120 | an edit that keeps the selection issues no request at all |
| Reconcile.ToolEditExample | src/app/tool/tool.component.ts:98-120 | the concrete edit [1,2] to [2,3] of tool 8: link 3, unlink 1, notify [3,1] |
| Reconcile.OriginalIds | src/app/event/event.component.ts:82-85 | the backend members when there are any; else the cached list when it is non-empty; else [] |
| Reconcile.EditEffect | src/app/article/article.component.ts:100-130 | the edit caches the dialog's ids under the resource and issues the reconciliation requests between the original and the dialog's ids |
| Reconcile.ReadOriginal | src/app/tool/tool.component.ts:81-85 | reads the original selection: the backend's member ids, else a non-empty cached list |
| Reconcile.ApplyEdit | src/app/tool/tool.component.ts:115-120 | the loop issues exactly the edit's requests and stores the new ids in the cache |
| Reconcile.UnlinkEach | src/app/tool/tool.component.ts:117-119 | the `forEach` issues one unlink per removed id, in order |
| Reconcile.WriteCache | src/app/article/article.component.ts:70 | the cache becomes the old cache with the handler's write applied |
| Reconcile.CachedSelectionKeepsEditSilent | src/app/event/event.component.ts:82-120 | when the backend lists no members, the cache holds the selection and the dialog returns it unchanged, the edit issues nothing and rewrites the same cache entry |
| Reconcile.CreateCalls | src/app/tool/tool.component.ts:55-66 | no ids: nothing; otherwise one link per id, then one notification with all the ids |
| Reconcile.DeleteCalls | src/app/event/event.component.ts:131-155 | nothing unless confirmed; the delete request first; a notification only after a successful read and delete that named members |
| ArticleView.CreateEffect | src/app/article/article.component.ts:49-81 | a cancelled dialog, a failed create or a selection with a null entry (the id mapping throws) does nothing; otherwise links and a notification for the selected ids; the cache is written exactly when some id was selected |
| ArticleView.EditFlow | src/app/article/article.component.ts:83-133 | a failed read, a fetched or saved member list with a null entry (the id mapping throws) or a closed dialog does nothing; otherwise the reconciliation against the backend or cached members, which the update never stops because `updatePub` swallows its failure |
| ArticleView.DeleteFlow | src/app/article/article.component.ts:135-156 | nothing unless confirmed; nothing either when the fetched member list has a null entry; otherwise the delete first; any notification names the deleted publication's stored members |
| ArticleView.NullMemberStopsDelete | src/app/article/article.component.ts:144-145 | a publication listing a null member is not deleted: the handler throws before the delete |
| ArticleView.CreateThenEditSameSelection | src/app/article/article.component.ts:49-133 | after a create that cached its selection, an edit that keeps it issues nothing, even when the backend returns no members |
| ArticleView.ArticleView.OpenCreate | src/app/article/article.component.ts:49-81 | issues the create effect's requests and applies its cache write |
| ArticleView.ArticleView.OpenEdit | src/app/article/article.component.ts:83-133 | issues the edit flow's requests computed from the current cache and applies its cache write |
| EventView.CreateEffect | src/app/event/event.component.ts:49-77 | a cancelled dialog, a failed create or a null entry in the list the ids are read from does nothing; otherwise links and a notification; the cache is always written, falling back to the created event's members |
| EventView.EditFlow | src/app/event/event.component.ts:79-128 | a failed read, a fetched or saved member list with a null entry, a cancelled dialog or a failed update does nothing; otherwise the reconciliation |
| EventView.DeleteFlow | src/app/event/event.component.ts:131-155 | nothing unless confirmed; nothing either when the fetched member list has a null entry; otherwise the delete first; any notification names the event's stored members |
| EventView.CreateThenEditSameSelection | src/app/event/event.component.ts:49-128 | after a create with a non-empty selection, an edit that keeps it issues nothing |
| EventView.EventView.Open | src/app/event/event.component.ts:49-77 | issues the create effect's requests and applies its cache write |
| EventView.EventView.OpenEdit | src/app/event/event.component.ts:79-128 | issues the edit flow's requests computed from the current cache and applies its cache write |
| ToolView.CreateEffect | src/app/tool/tool.component.ts:49-76 | a cancelled dialog, a failed create or a null entry in the list the ids are read from does nothing; otherwise links and a notification; the cache is always written |
| ToolView.EditFlow | src/app/tool/tool.component.ts:78-125 | a failed read, a fetched or saved member list with a null entry, a cancelled dialog or a failed update does nothing; otherwise the reconciliation |
| ToolView.DeleteFlow | src/app/tool/tool.component.ts:127-146 | nothing unless confirmed; nothing either when the fetched member list has a null entry; otherwise the delete first; any notification names the tool's stored members |
| ToolView.CreateThenEditSameSelection | src/app/tool/tool.component.ts:49-125 | after a create with a non-empty selection, an edit that keeps it issues nothing |
| ToolView.ToolView.OpenCreate | src/app/tool/tool.component.ts:49-76 | issues the create effect's requests and applies its cache write |
| ToolView.ToolView.OpenEdit | src/app/tool/tool.component.ts:78-125 | issues the edit flow's requests computed from the current cache and applies its cache write |
| MemberView.StudentsOfSpec | src/app/member/member.component.ts:42 | a teacher's students are exactly the listed members whose `encadrant.id` is strictly the teacher's id |
| MemberView.NaNSupervisorSupervisesNoOne | src/app/member/member.component.ts:99 | a NaN supervisor id matches no teacher |
| MemberView.OpenDetails | src/app/member/member.component.ts:28-49 | nothing opens on a failed or empty fetch, or (for a teacher) on an unreadable list; a student opens with no students; a teacher opens with exactly its students |
| MemberView.ClearCalls | src/app/member/member.component.ts:115 | one supervisor clear per student, by `String(s.id)`, in order |
| MemberView.GroupUnlinks | src/app/member/member.component.ts:125-138 | one unlink of the member per resource of a group, by `Number(x.id)` |
| MemberView.AssocUnlinksSpec | src/app/member/member.component.ts:120-139 | every association removal unlinks the deleted member; there is one per group entry; there are none without a full record |
| MemberView.PushGroup | src/app/member/member.component.ts:124-126 | the loop succeeds exactly when no entry of the group is null, and then appends one unlink per entry |
| MemberView.PushAssociations | src/app/member/member.component.ts:120-139 | the gathering succeeds exactly when no group has a null entry, and then yields exactly the association removals |
| MemberView.Delete | src/app/member/member.component.ts:76-178 | the handler chain issues the requests, prompt and outcome of the cascade specification |
| MemberView.DeleteShortPaths | src/app/member/member.component.ts:76-106 | cancelled: nothing; student or unreadable member: read then delete; unreadable list: stops after the list read; a teacher without students: delete directly |
| MemberView.DeletePrompt | src/app/member/member.component.ts:99-113 | the second confirmation appears exactly for a teacher with students and reports their number; declining stops; supervisors are cleared only after agreeing |
| MemberView.ClearFailureCancels | src/app/member/member.component.ts:114-170 | a failed supervisor clear aborts before any unlink or delete |
| MemberView.TeacherDeleteTrace | src/app/member/member.component.ts:114-160 | a completed teacher cascade is: read, list, the clears, the full-member read, the association removals, the delete |
| MemberView.DeleteRequestLast | src/app/member/member.component.ts:76-178 | the delete is issued exactly when the outcome says so, once and last; every unlink is of the deleted member |
| MemberView.DeleteTraceShape | src/app/member/member.component.ts:114-139 | clears are not unlinks; every association removal unlinks the member; neither contains the delete |
| MemberDetail.ReloadsOnNotification | src/app/member-detail-dialog/member-detail-dialog.component.ts:42-48 | the dialog reloads on a notification exactly when it names the member's numeric id |
| MemberDetail.EditReloadsChangedMembers | src/app/member-detail-dialog/member-detail-dialog.component.ts:42-48 | after an edit, a member's open dialog reloads exactly when the member was added or removed |
| MemberDetail.RoleMatchesDetailMapping | src/app/member-detail-dialog/member-detail-dialog.component.ts:55-61 | the dialog's student test agrees with the detail mapping's type |
| MemberDetail.AvailableOfSpec | src/app/member-detail-dialog/member-detail-dialog.component.ts:95-108 | the offered students are exactly the listed students with no supervisor who are not already this teacher's students |
| MemberDetail.FindById | src/app/member-detail-dialog/member-detail-dialog.component.ts:110-127 | a found entry is in the list with the given id string; when none is found, no entry has it |
| MemberDetail.WithoutSpec | src/app/member-detail-dialog/member-detail-dialog.component.ts:110-138 | both removal filters keep exactly the entries whose id differs |
| MemberDetail.EncadrantToFetch | src/app/member-detail-dialog/member-detail-dialog.component.ts:63-86 | the supervisor is fetched only when it has a non-empty id and lacks a first or last name (e.g. `{id: 7}` fetches "7") |
| MemberDetail.LoadedList | src/app/member-detail-dialog/member-detail-dialog.component.ts:140-157 | each list comes from the full record when present, else []; on failure the current list is kept; the result is always truthy |
| MemberDetail.WithFullMember | src/app/member-detail-dialog/member-detail-dialog.component.ts:140-157 | a member with an id gets its three lists from the full record, and every other field is unchanged |
| MemberDetail.MemberDetailDialog.constructor | src/app/member-detail-dialog/member-detail-dialog.component.ts:28-49 | the dialog starts on the given member and students, with nothing selected or loading |
| MemberDetail.MemberDetailDialog.EnsureEncadrantLoaded | src/app/member-detail-dialog/member-detail-dialog.component.ts:63-86 | fetches the supervisor exactly when it must, and replaces it on success; nothing else changes |
| MemberDetail.MemberDetailDialog.LoadFullMember | src/app/member-detail-dialog/member-detail-dialog.component.ts:140-157 | the member becomes the member with its full lists |
| MemberDetail.MemberDetailDialog.OnChange | src/app/member-detail-dialog/member-detail-dialog.component.ts:42-48 | reloads exactly on a notification naming the member |
| MemberDetail.MemberDetailDialog.LoadAvailableStudents | src/app/member-detail-dialog/member-detail-dialog.component.ts:95-108 | the offered students are recomputed from the list; on failure they are kept |
| MemberDetail.MemberDetailDialog.ToggleAddStudent | src/app/member-detail-dialog/member-detail-dialog.component.ts:88-93 | flips the add section and loads the offered students when it opens |
| MemberDetail.MemberDetailDialog.AssignSelectedStudent | src/app/member-detail-dialog/member-detail-dialog.component.ts:110-127 | without a truthy selection (none or '') nothing happens; otherwise sets the supervisor, and a found student moves from offered to assigned with `encadrant {id}`, and the selection and section are reset |
| MemberDetail.MemberDetailDialog.RemoveStudent | src/app/member-detail-dialog/member-detail-dialog.component.ts:129-138 | clears the supervisor of `studentId.toString()`; the student leaves the list exactly when the clear succeeds |
| MemberForm.TypeValidators | src/app/member-form/member-form.component.ts:135-157 | a student type requires the student fields and none of the teacher fields, any other type the reverse; other controls are untouched |
| MemberForm.LastTypeWins | src/app/member-form/member-form.component.ts:135-157 | switching types twice leaves the validators of the last type |
| MemberForm.EncadrantIdOf | src/app/member-form/member-form.component.ts:71-82 | the supervisor control holds null or a number; a missing supervisor gives null |
| MemberForm.EncadrantRef | src/app/member-form/member-form.component.ts:255-262 | the submitted encadrant is null exactly for an empty control, else `{id: Number(v)}` |
| MemberForm.EncadrantRoundTrip | src/app/member-form/member-form.component.ts:71-262 | loading then submitting keeps a numeric, numeric-string or object supervisor id, and turns a missing or unparsable one into null |
| MemberForm.PatchedValue | src/app/member-form/member-form.component.ts:84-100 | the patch adds no control (in particular no `sujet`), sets the type and the normalised supervisor id |
| MemberForm.SubmittedValue | src/app/member-form/member-form.component.ts:247-262 | the raw value with the formatted dates, today's creation date and `encadrant` in place of `encadrantId`; every other control is copied |
| MemberForm.SubmitOf | src/app/member-form/member-form.component.ts:240-273 | an invalid form is only marked touched; in edit mode the update is sent, otherwise the create; a non-string type throws |
| MemberForm.NoSujetControl | src/app/member-form/member-form.component.ts:30-100 | the loaded form has no `sujet` control |
| MemberForm.UnchangedStudentValue | src/app/member-form/member-form.component.ts:84-262 | an unchanged student edit submits the same type and supervisor and no `sujet` |
| MemberForm.UnchangedStudentEdit | src/app/member-form/member-form.component.ts:240-273 | an unchanged student edit writes the same supervisor and an empty `sujet` |
| MemberForm.StudentUpdatePayload | src/services/member.service.ts:245-280 | a student update sends the given supervisor and `sujet`, or their defaults |
| MemberForm.TeachersOfSpec | src/app/member-form/member-form.component.ts:159-167 | the offered supervisors are exactly the listed members the detail mapping calls teachers |
| MemberForm.Base64Part | src/app/member-form/member-form.component.ts:204 | the photo value is the longest comma-free prefix of the text after the first comma of a data URL (the whole URL when it has none) |
| MemberForm.DataUrlPayload | src/app/member-form/member-form.component.ts:198-205 | a data URL `<prefix>,<payload>` with comma-free parts gives back exactly its payload |
| MemberForm.MemberFormComponent.constructor | src/app/member-form/member-form.component.ts:30-60 | edit mode exactly with a route id; the initial controls; the student validators |
| MemberForm.MemberFormComponent.UpdateTypeValidators | src/app/member-form/member-form.component.ts:135-157 | the validators become those of the type |
| MemberForm.MemberFormComponent.PatchFromMember | src/app/member-form/member-form.component.ts:84-100 | the value becomes the patched value and the validators follow the member's type |
| MemberForm.MemberFormComponent.LoadTeachers | src/app/member-form/member-form.component.ts:159-167 | the supervisors become the teachers of the list; on failure none |
| MemberForm.MemberFormComponent.OnCvSelected | src/app/member-form/member-form.component.ts:220-238 | only a PDF is accepted and sets the CV name; no file clears it; anything else is rejected and changes nothing |
| MemberForm.MemberFormComponent.OnPhotoSelected | src/app/member-form/member-form.component.ts:180-218 | only JPEG, PNG, GIF or WebP is accepted; a read file sets the preview and the base64 part; no file or a failed read clears it |
| MemberForm.MemberFormComponent.Sub | src/app/member-form/member-form.component.ts:240-273 | the outcome is the submit specification of the current form; touched exactly when invalid |
| CreateDialogs.CompareMember | src/app/article-create/article-create.component.ts:84-90 | two options match exactly when neither is null and their keys are the same number |
| CreateDialogs.CompareMemberSpec | src/app/event-create/event-create.component.ts:141-146 | matching is symmetric and transitive |
| CreateDialogs.CompareMemberIds | src/app/tool-create/tool-create.component.ts:72-77 | a member with id i matches the number j, the string of j and `{id: j}` exactly when i = j |
| CreateDialogs.Required | src/app/event-create/event-create.component.ts:53-60 | the member selection is always required, and every required field is a control |
| CreateDialogs.EmptyForm | src/app/tool-create/tool-create.component.ts:50-60 | every control null but the selection |
| CreateDialogs.SelectionOf | src/app/event-create/event-create.component.ts:36 | a falsy member list selects the fallback; otherwise one `m.id || m` per member |
| CreateDialogs.FetchedForm | src/app/article-create/article-create.component.ts:31-56 | an edit form has exactly the dialog's controls |
| CreateDialogs.FallbackOnlyOnFailure | src/app/event-create/event-create.component.ts:32-52 | the opener's ids are selected only when the fetch fails; a fetched resource always selects its own members |
| CreateDialogs.EmptyMembresIgnoreFallback | src/app/event-create/event-create.component.ts:34-43 | an event fetched with no members opens with an empty selection, whatever the opener passed |
| CreateDialogs.IntendedSelection | src/app/event/event.component.ts:82-89 | an empty member list selects the opener's ids; a non-empty one selects its own |
| CreateDialogs.IntendedSelectionKeepsCachedMembers | src/app/event/event.component.ts:82-120 | with that selection, an unchanged save of a cached event issues nothing |
| CreateDialogs.WrittenSelectionDropsCachedMembers | src/app/event-create/event-create.component.ts:36 | as written, an unchanged save of event 1's cached member notifies and unlinks that member |
| CreateDialogs.RefsFor | src/app/event-create/event-create.component.ts:148-160 | one `{id: Number(v)}` per selected value, in order |
| CreateDialogs.SavedValue | src/app/article-create/article-create.component.ts:92-104 | the closed value carries the selection as references, and today's date (or, for an event, the formatted start and end dates) |
| CreateDialogs.SavedSelectionReadBack | src/app/tool-create/tool-create.component.ts:79-92 | the list page reads back exactly `Number` of each selected value |
| CreateDialogs.UnchangedEditRoundTrip | src/app/article-create/article-create.component.ts:39 | opening on `{id: n}` members selects the same ids again |
| CreateDialogs.CreateDialog.constructor | src/app/event-create/event-create.component.ts:17-71 | the edit id and fallback as given; a create form at once, an edit form only after the fetch |
| CreateDialogs.CreateDialog.LoadMembers | src/app/tool-create/tool-create.component.ts:20-28 | the member options are the list, or none on failure |
| CreateDialogs.CreateDialog.OnFetched | src/app/article-create/article-create.component.ts:31-56 | an edit dialog's form becomes the fetched form |
| CreateDialogs.CreateDialog.Save | src/app/event-create/event-create.component.ts:148-160 | the publication and tool dialogs refuse an invalid form and mark it touched; the event dialog closes regardless; the closed value is the saved value |
| CreateDialogs.EmptySelectionBlocksSave | src/app/article-create/article-create.component.ts:92-96 | an empty selection makes the form invalid |
| Dashboard.CountTeachers | src/app/dashboard/dashboard.component.ts:78-84 | the teachers are at most the members |
| Dashboard.CountRoles | src/app/dashboard/dashboard.component.ts:78-84 | the loop counts the teachers, and every other member as a student |
| Dashboard.ListedTeacher | src/app/dashboard/dashboard.component.ts:78-84 | a listed member counts as a teacher exactly when its record has no `dateInscription` |
| Dashboard.TeachersAreRecordsWithoutInscription | src/app/dashboard/dashboard.component.ts:54-91 | the teacher count is the number of records without `dateInscription` |
| Dashboard.PubCount | src/app/dashboard/dashboard.component.ts:74 | the number of `pubs` of a fetched full member, or 0 |
| Dashboard.Charts | src/app/dashboard/dashboard.component.ts:65-84 | one full fetch, one label and one publication count per member, in member order, and the [teachers, students] distribution |
| Dashboard.DashboardView.constructor | src/app/dashboard/dashboard.component.ts:33-44 | all counters zero and charts empty |
| Dashboard.DashboardView.LoadMembers | src/app/dashboard/dashboard.component.ts:54-91 | counts the members; with none, empty charts and distribution [0, 0]; otherwise one full fetch, one label and one publication count per member, in order, and the [teachers, students] distribution |
| Dashboard.DashboardView.LoadCounts | src/app/dashboard/dashboard.component.ts:94-106 | each counter is the length of its service's list: the body's length when readable, 0 on failure |

## Left out

- Numbers are integers or NaN. `Number(..)` of a string accepts only optionally signed decimal digits, without whitespace, fractions or exponents. `Number(..)` of an array is NaN, although JavaScript converts one-element arrays.
- `toLowerCase()` folds only the ASCII capitals.
- Objects and arrays are compared by value. JavaScript compares them by identity, so aliasing between a student in two lists is not modelled either.
- HTTP, RxJS scheduling and concurrency are not modelled. Each answer is a parameter. Concurrent requests are traced in the order the code issues them. A `forkJoin` is modelled as "all requests issued, then the callback".
- Alerts, console logging, `MatDialog` plumbing, table data sources, paginators, sorting, the chart objects and `applyFilter`/`togglePassword` are not modelled. Their effects are outside the returned state.
- Dates are not modelled. "Today" and the formatted dates (`toIsoDate`, `formatDate`, `parseDate`) are inputs. The edit dialogs' date controls are modelled as the fetched values.
- `FileReader` is not modelled. Its result (the data URL, or a failed read) is an input to `OnPhotoSelected`.
- `Validators.email` is not modelled. Its verdict is an input of `Sub`.
- The resource-sync service (src/services/resource-sync.service.ts) is a `Subject`. Emitting is an `Emit` trace entry. Delivering to an open detail dialog is `MemberDetail.Reloads`.
- Login, the template component, the app module and routing hold no logic of the core and are not modelled.
- A truthy non-array `membres` or member list is read as []. JavaScript would throw on `.map` or `.filter`.
- MemberDetail.FindById: an entry whose `id` is null or undefined reads as the string "null" or "undefined"; in JavaScript `a.id.toString()` throws on it, in `find` and in the `filter` that follows. The offered students are backend member records, which carry an id.
- PubService.Payload, PubService.UpdatePub, EvtService.Payload and OutilService.Payload: a null entry in an outbound `membres` array throws in JavaScript before the request is sent; the model maps it like any other entry. The dialogs write only `{id: n}` entries (`CreateDialogs.SavedValue`).
- MemberDetail.MemberDetailDialog.RemoveStudent: the student id is a number, so `toString()` of a missing id (which throws) is not modelled.
- CreateDialogs.CreateDialog.Save: the event dialog saving before its form exists throws in JavaScript. The model closes nothing.
- EvtService.Payload and OutilService.Payload: these are the bodies `updateEvent` and `updateOutil` send. The two updates are modelled as that payload plus the `update` response the edit flows receive.

## Findings

| source | as written | input that shows it | evidently intended | confidence | as-written member | corrected member |
|---|---|---|---|---|---|---|
| src/app/event-create/event-create.component.ts:36 | `selected` is the fetched `membres` mapped, and the opener's `originalMemberIds` only when `membres` is falsy; `getEventById` always defaults `membres` to [], so on a successful fetch the fallback is dead (same in article-create.component.ts:39 and tool-create.component.ts:36) | event 1 whose backend record lists no members, cached as [1]: the dialog opens with an empty selection, the event dialog saves without validation, and the unchanged save unlinks member 1 and notifies it | the opener computes `originalMemberIds` from the cache when the backend lists none (event.component.ts:82-89) so that the dialog shows them: an empty fetched list should select the fallback | not executed | CreateDialogs.WrittenSelectionDropsCachedMembers | CreateDialogs.IntendedSelectionKeepsCachedMembers |

The dialog class `CreateDialogs.CreateDialog` keeps the selection as
written (`CreateDialogs.SelectionOf`), because the rest of the model
follows the code. `CreateDialogs.IntendedSelection` is the corrected
selection. `CreateDialogs.IntendedSelectionKeepsCachedMembers` proves, for
that selection, the property the opener relies on.
