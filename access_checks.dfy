/** Ownership checks on reports, report templates and template sections
    (apps/backend/src/modules/auth/access_checks.ts). Each is a read-only select that returns the first
    matching row or throws one fixed message, whether the row is missing or belongs to someone else. */
module AccessChecks {
  import opened Wrappers

  datatype Report = Report(id: string, userId: string)
  datatype ReportTemplate = ReportTemplate(id: string, userId: string)
  datatype ReportTemplateSection = ReportTemplateSection(id: string, reportTemplateId: string)

  /** One row of the section/template inner join. */
  datatype SectionAccess = SectionAccess(section: ReportTemplateSection, template: ReportTemplate)

  const ReportDenied: string := "Report not found or access denied"
  const TemplateDenied: string := "Template not found or access denied"
  const SectionDenied: string := "Section not found or access denied"

  ghost predicate OwnsReport(reports: seq<Report>, reportId: string, userId: string) {
    exists j :: 0 <= j < |reports| && reports[j].id == reportId && reports[j].userId == userId
  }

  ghost predicate OwnsTemplate(templates: seq<ReportTemplate>, templateId: string, userId: string) {
    exists j :: 0 <= j < |templates| && templates[j].id == templateId && templates[j].userId == userId
  }

  /** The section exists and the template it belongs to is the user's. */
  ghost predicate OwnsSection(sections: seq<ReportTemplateSection>, templates: seq<ReportTemplate>,
                              sectionId: string, userId: string) {
    exists i :: 0 <= i < |sections| && sections[i].id == sectionId
                && OwnsTemplate(templates, sections[i].reportTemplateId, userId)
  }

  /** userAccessAllowed: the report when both its id and its owner match, else the denial. */
  function UserAccessAllowed(reports: seq<Report>, reportId: string, userId: string): (r: Result<Report, string>)
    ensures r.Ok? <==> OwnsReport(reports, reportId, userId)
    ensures r.Ok? ==> r.value in reports && r.value.id == reportId && r.value.userId == userId
    ensures r.Err? ==> r.error == ReportDenied
  {
    if |reports| == 0 then Err(ReportDenied)
    else if reports[0].id == reportId && reports[0].userId == userId then Ok(reports[0])
    else
      var r := UserAccessAllowed(reports[1..], reportId, userId);
      assert OwnsReport(reports, reportId, userId) ==> OwnsReport(reports[1..], reportId, userId) by {
        if OwnsReport(reports, reportId, userId) {
          var j :| 0 <= j < |reports| && reports[j].id == reportId && reports[j].userId == userId;
          assert reports[1..][j - 1] == reports[j];
        }
      }
      assert OwnsReport(reports[1..], reportId, userId) ==> OwnsReport(reports, reportId, userId) by {
        if OwnsReport(reports[1..], reportId, userId) {
          var j :| 0 <= j < |reports[1..]| && reports[1..][j].id == reportId && reports[1..][j].userId == userId;
          assert reports[j + 1] == reports[1..][j];
        }
      }
      r
  }

  /** userTemplateAccessAllowed: the template only when the user owns it. */
  function UserTemplateAccessAllowed(templates: seq<ReportTemplate>, templateId: string, userId: string)
    : (r: Result<ReportTemplate, string>)
    ensures r.Ok? <==> OwnsTemplate(templates, templateId, userId)
    ensures r.Ok? ==> r.value in templates && r.value.id == templateId && r.value.userId == userId
    ensures r.Err? ==> r.error == TemplateDenied
  {
    if |templates| == 0 then Err(TemplateDenied)
    else if templates[0].id == templateId && templates[0].userId == userId then Ok(templates[0])
    else
      var r := UserTemplateAccessAllowed(templates[1..], templateId, userId);
      assert OwnsTemplate(templates, templateId, userId) ==> OwnsTemplate(templates[1..], templateId, userId) by {
        if OwnsTemplate(templates, templateId, userId) {
          var j :| 0 <= j < |templates| && templates[j].id == templateId && templates[j].userId == userId;
          assert templates[1..][j - 1] == templates[j];
        }
      }
      assert OwnsTemplate(templates[1..], templateId, userId) ==> OwnsTemplate(templates, templateId, userId) by {
        if OwnsTemplate(templates[1..], templateId, userId) {
          var j :| 0 <= j < |templates[1..]| && templates[1..][j].id == templateId
                   && templates[1..][j].userId == userId;
          assert templates[j + 1] == templates[1..][j];
        }
      }
      r
  }

  /** userSectionAccessAllowed: the first joined row whose section has the id and whose template
      is the user's; the denial when there is none. */
  function UserSectionAccessAllowed(sections: seq<ReportTemplateSection>, templates: seq<ReportTemplate>,
                                    sectionId: string, userId: string): (r: Result<SectionAccess, string>)
    ensures r.Ok? <==> OwnsSection(sections, templates, sectionId, userId)
    ensures r.Ok? ==> r.value.section in sections && r.value.section.id == sectionId
                      && r.value.template in templates && r.value.template.id == r.value.section.reportTemplateId
                      && r.value.template.userId == userId
    ensures r.Err? ==> r.error == SectionDenied
  {
    if |sections| == 0 then Err(SectionDenied)
    else
      var s := sections[0];
      var t := if s.id == sectionId then UserTemplateAccessAllowed(templates, s.reportTemplateId, userId)
               else Err(TemplateDenied);
      if t.Ok? then Ok(SectionAccess(s, t.value))
      else
        var r := UserSectionAccessAllowed(sections[1..], templates, sectionId, userId);
        assert OwnsSection(sections, templates, sectionId, userId) ==> OwnsSection(sections[1..], templates, sectionId, userId) by {
          if OwnsSection(sections, templates, sectionId, userId) {
            var i :| 0 <= i < |sections| && sections[i].id == sectionId
                     && OwnsTemplate(templates, sections[i].reportTemplateId, userId);
            assert i != 0;
            assert sections[1..][i - 1] == sections[i];
          }
        }
        assert OwnsSection(sections[1..], templates, sectionId, userId) ==> OwnsSection(sections, templates, sectionId, userId) by {
          if OwnsSection(sections[1..], templates, sectionId, userId) {
            var i :| 0 <= i < |sections[1..]| && sections[1..][i].id == sectionId
                     && OwnsTemplate(templates, sections[1..][i].reportTemplateId, userId);
            assert sections[i + 1] == sections[1..][i];
          }
        }
        r
  }

  /** A report that is missing and one owned by someone else are indistinguishable: without an owned
      match the answer is the one an empty table gives. The same holds for templates. */
  lemma DenialRevealsNothing(reports: seq<Report>, templates: seq<ReportTemplate>, id: string, userId: string)
    requires !OwnsReport(reports, id, userId)
    requires !OwnsTemplate(templates, id, userId)
    ensures UserAccessAllowed(reports, id, userId) == UserAccessAllowed([], id, userId) == Err(ReportDenied)
    ensures UserTemplateAccessAllowed(templates, id, userId) == UserTemplateAccessAllowed([], id, userId)
            == Err(TemplateDenied)
  {
  }

  /** Section ownership is inherited: with unique section ids, access to a section is allowed exactly
      when access to its template is. */
  lemma SectionAccessInheritsTemplate(sections: seq<ReportTemplateSection>, templates: seq<ReportTemplate>,
                                      i: int, userId: string)
    requires 0 <= i < |sections|
    requires forall a, b :: 0 <= a < b < |sections| ==> sections[a].id != sections[b].id
    ensures UserSectionAccessAllowed(sections, templates, sections[i].id, userId).Ok?
            <==> UserTemplateAccessAllowed(templates, sections[i].reportTemplateId, userId).Ok?
  {
    if OwnsSection(sections, templates, sections[i].id, userId) {
      var k :| 0 <= k < |sections| && sections[k].id == sections[i].id
               && OwnsTemplate(templates, sections[k].reportTemplateId, userId);
      assert k == i;
    }
  }
}
